/**
 * The packet-building half of `send_aprs_packet` in APRS.py: a timestamped
 * APRS position report
 *
 *   CALL>APRSTV,PATH:/HHMMSSh<lat><table><lon>e<speed>/<course>[/A=<feet>] <comment>
 *
 * built from the caller's arguments.  The UTC time is an input instead of a
 * clock reading.  Numeric arguments arrive as text, as in the source, and are
 * read the way `int(float(x))` reads them; text that `float()` rejects raises
 * ValueError, which escapes `send_aprs_packet` (it is raised before the
 * `try` around the HTTP request).
 */
module PositionReport {
  import opened Wrappers
  import opened Text
  import Passcode

  /** A number as `float()` reads it: `units / 10^scale`, negated when `negative`. */
  datatype Decimal = Decimal(negative: bool, units: nat, scale: nat)

  /** The text of a numeric argument: a number `float()` accepts, or text it rejects. */
  datatype NumberText = Number(value: Decimal) | Malformed(text: string)

  /** The UTC wall-clock time `datetime.utcnow()` would give. */
  datatype UtcTime = UtcTime(hour: nat, minute: nat, second: nat) {
    predicate Valid() {
      hour < 24 && minute < 60 && second < 60
    }
  }

  /** The keyword arguments of `send_aprs_packet`; `None` is `Wrappers.None`. */
  datatype PacketArgs = PacketArgs(
    callsign: string,
    path: string,
    latitude: string,
    longitude: string,
    symbolTable: string,
    symbolCode: string,
    comment: string,
    aprsWord: Option<string>,
    speed: Option<NumberText>,
    course: Option<NumberText>,
    altitude: Option<NumberText>,
    power: Option<string>,
    antennaHeight: Option<string>,
    gain: Option<string>,
    deviceInfo: Option<string>,
    softwareInfo: Option<string>)

  /** The ValueError `float()` raises on the text it cannot read. */
  datatype EncodeError = ValueError(text: string)

  /** The destination call every report is addressed to, with the comma before the path. */
  const ToCall := "APRSTV,"
  /** The placeholder written when speed or course is missing. */
  const NoMotion := "   /   "

  /** `int(float(x))`: the fraction is dropped, rounding towards zero. */
  function Truncate(d: Decimal): int {
    var q: int := Quotient(d.units, Pow10(d.scale));
    if d.negative then -q else q
  }

  function Quotient(n: nat, p: nat): nat
    requires p > 0
  {
    n / p
  }

  /** The quotient and the remainder put the number back together. */
  lemma QuotientRemainder(n: nat, p: nat)
    requires p > 0
    ensures Quotient(n, p) * p + n % p == n
  {
  }

  /** The quotient is the only multiplier that leaves a remainder below the divisor. */
  lemma QuotientOf(x: nat, p: nat, r: nat)
    requires r < p
    ensures Quotient(x * p + r, p) == x
  {
    var n := x * p + r;
    QuotientRemainder(n, p);
    var q := Quotient(n, p);
    if q < x { ScaleMonotone(q + 1, x, p); assert false; }
    if q > x { ScaleMonotone(x + 1, q, p); assert false; }
  }

  lemma ScaleMonotone(a: nat, b: nat, p: nat)
    requires a <= b
    ensures a * p <= b * p
  {
  }

  /** `int(float(x))`, failing where `float()` raises. */
  function ReadInt(t: NumberText): (r: Result<int, EncodeError>)
    ensures r.Failure? <==> t.Malformed?
  {
    match t
    case Number(d) => Success(Truncate(d))
    case Malformed(x) => Failure(ValueError(x))
  }

  /** `int(float(m) * 3.28084)`: metres to whole feet; 3.28084 is 328084 / 10^5, multiplied exactly. */
  function Feet(d: Decimal): int {
    Truncate(Decimal(d.negative, d.units * 328084, d.scale + 5))
  }

  /** `strftime("%H%M%S")`. */
  function Timestamp(t: UtcTime): string {
    FormatInt(t.hour, 2) + FormatInt(t.minute, 2) + FormatInt(t.second, 2)
  }

  /** Everything up to and including the symbol code `e`; `symbol_code` is never used. */
  function PositionBlock(a: PacketArgs, t: UtcTime): string {
    a.callsign + ">" + ToCall + a.path + ":" + Header(a, t)
  }

  /** The position after the path's ':': data type '/', time, latitude, table, longitude, 'e'. */
  function Header(a: PacketArgs, t: UtcTime): string {
    "/" + Timestamp(t) + "h" + a.latitude + a.symbolTable + a.longitude + "e"
  }

  /** "sss/ccc" when both speed and course are given, the blank placeholder otherwise. */
  function MotionField(speed: Option<NumberText>, course: Option<NumberText>): (r: Result<string, EncodeError>)
    ensures r.Failure? <==> speed.Some? && course.Some? && (speed.value.Malformed? || course.value.Malformed?)
  {
    if speed.Some? && course.Some? then
      var s :- ReadInt(speed.value);
      var c :- ReadInt(course.value);
      Success(FormatSigned(s, 3) + "/" + FormatSigned(c, 3))
    else
      Success(NoMotion)
  }

  /** "/A=ffffff" in feet when an altitude is given, nothing otherwise. */
  function AltitudeField(altitude: Option<NumberText>): (r: Result<string, EncodeError>)
    ensures r.Failure? <==> altitude.Some? && altitude.value.Malformed?
  {
    match altitude
    case None => Success("")
    case Some(Number(d)) => Success("/A=" + FormatSigned(Feet(d), 6))
    case Some(Malformed(x)) => Failure(ValueError(x))
  }

  /** `status_info`: power, antenna height, gain, device and software, in that order. */
  function StatusItems(a: PacketArgs): seq<string> {
    PowerItem(a) + AntennaItem(a) + GainItem(a) + InfoItem(a.deviceInfo) + InfoItem(a.softwareInfo)
  }

  function PowerItem(a: PacketArgs): seq<string> {
    if a.power.Some? then ["功率" + a.power.value + "W"] else []
  }

  function AntennaItem(a: PacketArgs): seq<string> {
    if a.antennaHeight.Some? then ["天线高度" + a.antennaHeight.value + "m"] else []
  }

  function GainItem(a: PacketArgs): seq<string> {
    if a.gain.Some? then ["增益" + a.gain.value + "dB"] else []
  }

  /** Device and software information count only when they are non-empty. */
  function InfoItem(info: Option<string>): seq<string> {
    if info.Some? && info.value != "" then [info.value] else []
  }

  /** `full_comment`: the status items space-joined, a space, then the comment. */
  function FullComment(a: PacketArgs): string {
    var status := Join(StatusItems(a), " ");
    if status != "" then status + " " + a.comment else a.comment
  }

  /** The wire string `aprs_data`, or the ValueError raised while building it. */
  function Encode(a: PacketArgs, t: UtcTime): Result<string, EncodeError> {
    Assemble(a, t, FullComment(a))
  }

  /** The report around a given full comment: position block, motion, altitude, a space, the comment. */
  function Assemble(a: PacketArgs, t: UtcTime, fullComment: string): Result<string, EncodeError> {
    var motion :- MotionField(a.speed, a.course);
    var altitude :- AltitudeField(a.altitude);
    Success(PositionBlock(a, t) + motion + altitude + " " + fullComment)
  }

  /** `aprs_word`: the caller's value, or the computed verification code as a decimal string. */
  function AprsWord(a: PacketArgs): (w: string)
    ensures a.aprsWord.None? ==> AllDigits(w) && DigitsValue(w) == Passcode.VerificationCode(a.callsign)
    ensures a.aprsWord.Some? ==> w == a.aprsWord.value
  {
    match a.aprsWord
    case Some(w) => w
    case None =>
      DigitsValueOfNatToString(Passcode.VerificationCode(a.callsign));
      NatToString(Passcode.VerificationCode(a.callsign))
  }

  // ---------------------------------------------------------------------------
  // Properties of the encoder

  /** Encoding fails exactly when a number that is read cannot be read, speed before course before altitude. */
  lemma EncodeFailure(a: PacketArgs, t: UtcTime)
    ensures Encode(a, t).Failure? <==>
      (a.speed.Some? && a.course.Some? && (a.speed.value.Malformed? || a.course.value.Malformed?))
      || (a.altitude.Some? && a.altitude.value.Malformed?)
    ensures Encode(a, t).Failure? ==>
      Encode(a, t).error == (if a.speed.Some? && a.course.Some? && a.speed.value.Malformed? then ValueError(a.speed.value.text)
      else if a.speed.Some? && a.course.Some? && a.course.value.Malformed? then ValueError(a.course.value.text)
      else ValueError(a.altitude.value.text))
  {
  }

  /** The symbol code argument has no effect on the packet. */
  lemma SymbolCodeIgnored(a: PacketArgs, t: UtcTime, code: string)
    ensures Encode(a.(symbolCode := code), t) == Encode(a, t)
  {
  }

  /** The status segment is empty exactly when no item is present, since no item is empty. */
  lemma StatusEmpty(a: PacketArgs)
    ensures Join(StatusItems(a), " ") == "" <==> StatusItems(a) == []
    ensures StatusItems(a) == [] ==> FullComment(a) == a.comment
    ensures StatusItems(a) != [] ==> FullComment(a) == Join(StatusItems(a), " ") + " " + a.comment
  {
    var items := StatusItems(a);
    assert forall i :: 0 <= i < |items| ==> items[i] != "";
    JoinEmpty(items);
  }

  /** A valid time is written as six digits that read back as hour, minute and second. */
  lemma TimestampDigits(t: UtcTime)
    requires t.Valid()
    ensures var s := Timestamp(t);
      |s| == 6 && AllDigits(s) &&
      DigitsValue(s[..2]) == t.hour && DigitsValue(s[2..4]) == t.minute && DigitsValue(s[4..]) == t.second
  {
    var h, m, s := FormatInt(t.hour, 2), FormatInt(t.minute, 2), FormatInt(t.second, 2);
    FormatIntValue(t.hour, 2);
    FormatIntValue(t.minute, 2);
    FormatIntValue(t.second, 2);
    var w := h + m + s;
    assert w[..2] == h && w[2..4] == m && w[4..] == s;
  }

  /** Without both speed and course the field is exactly the seven-character placeholder. */
  lemma MotionPlaceholder(speed: Option<NumberText>, course: Option<NumberText>)
    requires speed.None? || course.None?
    ensures MotionField(speed, course) == Success(NoMotion)
    ensures |NoMotion| == 7 && NoMotion[3] == '/'
  {
  }

  /** `int(float(x))` reads "45" and "45.7" as 45, "270" as 270, "400" as 400 and "-5.9" as -5. */
  lemma TruncateExamples()
    ensures Truncate(Decimal(false, 45, 0)) == 45 && Truncate(Decimal(false, 457, 1)) == 45
    ensures Truncate(Decimal(false, 270, 0)) == 270 && Truncate(Decimal(false, 400, 0)) == 400
    ensures Truncate(Decimal(true, 59, 1)) == -5
  {
    assert Pow10(1) == 10;
  }

  /** The three characters of `f"{n:03d}"` below 1000, through the digit characters. */
  lemma PaddedThree(n: nat, d2: char, d1: char, d0: char)
    requires n < 1000
    requires d2 == DigitChar(n / 100) && d1 == DigitChar(n / 10 % 10) && d0 == DigitChar(n % 10)
    ensures FormatInt(n, 3) == [d2, d1, d0]
  {
    ThreeDigits(n);
  }

  /** Speed 45 and course 270 give "045/270"; a speed of 45.7 is truncated, a course of 400
      degrees is not wrapped, and a speed of -5.9 is written "-05" in the three places. */
  lemma MotionExamples(slow: Decimal, fast: Decimal, west: Decimal, beyond: Decimal, backwards: Decimal)
    requires slow == Decimal(false, 45, 0) && fast == Decimal(false, 457, 1)
    requires west == Decimal(false, 270, 0) && beyond == Decimal(false, 400, 0)
    requires backwards == Decimal(true, 59, 1)
    ensures MotionField(Some(Number(slow)), Some(Number(west))) == Success("045/270")
    ensures MotionField(Some(Number(fast)), Some(Number(beyond))) == Success("045/400")
    ensures MotionField(Some(Number(backwards)), Some(Number(west))) == Success("-05/270")
  {
    TruncateExamples();
    PaddedThree(Truncate(slow), '0', '4', '5');
    PaddedThree(Truncate(west), '2', '7', '0');
    PaddedThree(Truncate(fast), '0', '4', '5');
    PaddedThree(Truncate(beyond), '4', '0', '0');
    assert FormatInt(-Truncate(backwards), 2) == "05" by {
      TwoDigits(-Truncate(backwards));
    }
    var first := FormatSigned(Truncate(slow), 3) + "/" + FormatSigned(Truncate(west), 3);
    var second := FormatSigned(Truncate(fast), 3) + "/" + FormatSigned(Truncate(beyond), 3);
    var third := FormatSigned(Truncate(backwards), 3) + "/" + FormatSigned(Truncate(west), 3);
    assert first == "045/270";
    assert second == "045/400";
    assert third == "-05/270";
    assert MotionField(Some(Number(backwards)), Some(Number(west))) == Success(third);
    assert MotionField(Some(Number(slow)), Some(Number(west))) == Success(first);
    assert MotionField(Some(Number(fast)), Some(Number(beyond))) == Success(second);
  }

  /** A number from 100 to 999 is written with exactly three digits and no padding. */
  lemma ThreeDigitString(n: nat)
    requires 100 <= n < 1000
    ensures |NatToString(n)| == 3 && FormatInt(n, 3) == NatToString(n)
  {
    assert |NatToString(n / 10)| >= 2;
    assert |NatToString(n)| == |NatToString(n / 10)| + 1;
    assert Pow10(3) == 1000;
    NatToStringShort(n, 3);
  }

  /** A three-digit number padded to six places gets three leading zeros. */
  lemma PaddedSix(n: nat)
    requires 100 <= n < 1000
    ensures FormatInt(n, 6) == "000" + FormatInt(n, 3)
  {
    ThreeDigitString(n);
    assert Zeros(3) == "000";
  }

  lemma PaddedSixDigits(n: nat, d2: char, d1: char, d0: char)
    requires 100 <= n < 1000
    requires d2 == DigitChar(n / 100) && d1 == DigitChar(n / 10 % 10) && d0 == DigitChar(n % 10)
    ensures FormatSigned(n, 6) == ['0', '0', '0', d2, d1, d0]
  {
    PaddedSix(n);
    PaddedThree(n, d2, d1, d0);
    ZerosBefore(FormatInt(n, 3), d2, d1, d0);
  }

  lemma ZerosBefore(s: string, d2: char, d1: char, d0: char)
    requires s == [d2, d1, d0]
    ensures "000" + s == ['0', '0', '0', d2, d1, d0]
  {
  }

  /** 100 m is 328.084 ft, written "/A=000328". */
  lemma AltitudeExample(metres: Decimal)
    requires metres == Decimal(false, 100, 0)
    ensures AltitudeField(Some(Number(metres))) == Success("/A=000328")
  {
    assert Feet(metres) == 328 by {
      assert Pow10(5) == 100000;
    }
    var feet: nat := Feet(metres);
    PaddedSixDigits(feet, '3', '2', '8');
    var field := "/A=" + FormatSigned(feet, 6);
    assert field == "/A=000328";
    assert AltitudeField(Some(Number(metres))) == Success(field);
  }

  // ---------------------------------------------------------------------------
  // Reading a report back: the partner of Encode

  datatype Motion = Motion(speed: int, course: int)

  /** What a receiver reads out of a position report built by Encode. */
  datatype Report = Report(
    source: string,
    path: string,
    time: UtcTime,
    latitude: string,
    symbolTable: string,
    longitude: string,
    motion: Option<Motion>,
    altitudeFeet: Option<int>,
    comment: string)

  /** Speed and course, or the placeholder; `None` when the field is neither. */
  function DecodeMotion(m: string): Option<Option<Motion>>
    requires |m| == 7
  {
    if m == NoMotion then Some(None)
    else if AllDigits(m[..3]) && m[3] == '/' && AllDigits(m[4..]) then
      Some(Some(Motion(DigitsValue(m[..3]), DigitsValue(m[4..]))))
    else None
  }

  /** The optional "/A=ffffff" before the space, and the comment after it. */
  function DecodeTail(s: string): Option<(Option<int>, string)> {
    if 1 <= |s| && s[0] == ' ' then Some((None, s[1..]))
    else if 10 <= |s| && s[..3] == "/A=" && AllDigits(s[3..9]) && s[9] == ' ' then
      Some((Some(DigitsValue(s[3..9])), s[10..]))
    else None
  }

  /** The fixed 27-character block "/HHMMSSh<lat><table><lon>e" holds a time. */
  predicate HeaderShape(h: string) {
    |h| == 27 && h[0] == '/' && h[7] == 'h' && h[26] == 'e'
    && AllDigits(h[1..3]) && AllDigits(h[3..5]) && AllDigits(h[5..7])
  }

  /** Everything after the path's ':'. */
  function DecodeBody(source: string, path: string, b: string): Option<Report> {
    if |b| < 34 || !HeaderShape(b[..27]) then None
    else
      var h := b[..27];
      match DecodeMotion(b[27..34])
      case None => None
      case Some(motion) =>
        match DecodeTail(b[34..])
        case None => None
        case Some((altitude, comment)) =>
          var time := UtcTime(DigitsValue(h[1..3]), DigitsValue(h[3..5]), DigitsValue(h[5..7]));
          Some(Report(source, path, time, h[8..16], h[16..17], h[17..26], motion, altitude, comment))
  }

  /** Reads a position report: source up to '>', the fixed destination, the path up to ':', then the body. */
  function Decode(w: string): Option<Report> {
    var i := FirstIndex(w, '>');
    if i == |w| then None
    else
      var rest := w[i + 1..];
      if |rest| < |ToCall| || rest[..|ToCall|] != ToCall then None
      else
        var addressed := rest[|ToCall|..];
        var j := FirstIndex(addressed, ':');
        if j == |addressed| then None
        else DecodeBody(w[..i], addressed[..j], addressed[j + 1..])
  }

  /** The arguments under which a report reads back unambiguously: no separator inside the
      source or the path, fixed-width position fields, a real time of day, numbers that parse
      and fit their three- and six-digit fields. */
  predicate Readable(a: PacketArgs, t: UtcTime) {
    '>' !in a.callsign && ':' !in a.path
    && |a.latitude| == 8 && |a.symbolTable| == 1 && |a.longitude| == 9
    && t.Valid()
    && (a.speed.Some? && a.course.Some? ==>
          a.speed.value.Number? && a.course.value.Number?
          && 0 <= Truncate(a.speed.value.value) < 1000 && 0 <= Truncate(a.course.value.value) < 1000)
    && (a.altitude.Some? ==> a.altitude.value.Number? && 0 <= Feet(a.altitude.value.value) < 1000000)
  }

  /** The report Assemble promises to carry. */
  function Expected(a: PacketArgs, t: UtcTime, fullComment: string): Report {
    var motion :=
      if a.speed.Some? && a.course.Some? && a.speed.value.Number? && a.course.value.Number? then
        Some(Motion(Truncate(a.speed.value.value), Truncate(a.course.value.value)))
      else None;
    var altitude := if a.altitude.Some? && a.altitude.value.Number? then Some(Feet(a.altitude.value.value)) else None;
    Report(a.callsign, a.path, t, a.latitude, a.symbolTable, a.longitude, motion, altitude, fullComment)
  }

  lemma MotionReadBack(speed: Option<NumberText>, course: Option<NumberText>)
    requires speed.Some? && course.Some? ==>
      speed.value.Number? && course.value.Number?
      && 0 <= Truncate(speed.value.value) < 1000 && 0 <= Truncate(course.value.value) < 1000
    ensures MotionField(speed, course).Success?
    ensures |MotionField(speed, course).value| == 7
    ensures DecodeMotion(MotionField(speed, course).value) ==
      if speed.Some? && course.Some? then Some(Some(Motion(Truncate(speed.value.value), Truncate(course.value.value))))
      else Some(None)
  {
    if speed.Some? && course.Some? {
      var s, c := Truncate(speed.value.value) as nat, Truncate(course.value.value) as nat;
      var x, y := FormatInt(s, 3), FormatInt(c, 3);
      assert Pow10(3) == 1000;
      FormatIntValue(s, 3);
      FormatIntValue(c, 3);
      var m := x + "/" + y;
      assert m[..3] == x && m[4..] == y && m[3] == '/';
      assert m[0] != ' ';
    }
  }

  lemma AltitudeText(digits: string, comment: string)
    requires |digits| == 6 && AllDigits(digits)
    ensures DecodeTail("/A=" + digits + " " + comment) == Some((Some(DigitsValue(digits) as int), comment))
  {
    var tail := "/A=" + digits + " " + comment;
    assert tail[..3] == "/A=" && tail[3..9] == digits && tail[9] == ' ' && tail[10..] == comment;
  }

  lemma TailReadBack(altitude: Option<NumberText>, comment: string)
    requires altitude.Some? ==> altitude.value.Number? && 0 <= Feet(altitude.value.value) < 1000000
    ensures AltitudeField(altitude).Success?
    ensures DecodeTail(AltitudeField(altitude).value + " " + comment) ==
      Some((if altitude.Some? then Some(Feet(altitude.value.value)) else None, comment))
  {
    if altitude.Some? {
      var feet := Feet(altitude.value.value) as nat;
      assert Pow10(6) == 1000000;
      FormatIntValue(feet, 6);
      AltitudeText(FormatInt(feet, 6), comment);
    } else {
      assert (" " + comment)[1..] == comment;
    }
  }

  lemma HeaderSlices(ts: string, latitude: string, table: string, longitude: string)
    requires |ts| == 6 && |latitude| == 8 && |table| == 1 && |longitude| == 9
    ensures var h := "/" + ts + "h" + latitude + table + longitude + "e";
      |h| == 27 && h[0] == '/' && h[7] == 'h' && h[26] == 'e'
      && h[1..3] == ts[..2] && h[3..5] == ts[2..4] && h[5..7] == ts[4..]
      && h[8..16] == latitude && h[16..17] == table && h[17..26] == longitude
  {
  }

  lemma HeaderReadBack(t: UtcTime, latitude: string, table: string, longitude: string)
    requires t.Valid() && |latitude| == 8 && |table| == 1 && |longitude| == 9
    ensures var h := "/" + Timestamp(t) + "h" + latitude + table + longitude + "e";
      HeaderShape(h)
      && UtcTime(DigitsValue(h[1..3]), DigitsValue(h[3..5]), DigitsValue(h[5..7])) == t
      && h[8..16] == latitude && h[16..17] == table && h[17..26] == longitude
  {
    var ts := Timestamp(t);
    TimestampDigits(t);
    HeaderSlices(ts, latitude, table, longitude);
    assert AllDigits(ts[..2]) && AllDigits(ts[2..4]) && AllDigits(ts[4..]);
  }

  /** Everything Assemble writes after the path's ':'. */
  function Body(a: PacketArgs, t: UtcTime, fullComment: string): string
    requires MotionField(a.speed, a.course).Success? && AltitudeField(a.altitude).Success?
  {
    Header(a, t) + MotionField(a.speed, a.course).value + AltitudeField(a.altitude).value + " " + fullComment
  }

  lemma AssembleParts(a: PacketArgs, t: UtcTime, fullComment: string)
    requires MotionField(a.speed, a.course).Success? && AltitudeField(a.altitude).Success?
    ensures Assemble(a, t, fullComment) == Success(PositionBlock(a, t) + MotionField(a.speed, a.course).value
      + AltitudeField(a.altitude).value + " " + fullComment)
  {
  }

  lemma AssembleFrame(a: PacketArgs, t: UtcTime, fullComment: string)
    requires MotionField(a.speed, a.course).Success? && AltitudeField(a.altitude).Success?
    ensures Assemble(a, t, fullComment) == Success(a.callsign + ['>'] + (ToCall + (a.path + [':'] + Body(a, t, fullComment))))
  {
    AssembleParts(a, t, fullComment);
    var header := Header(a, t);
    var motion, altitude := MotionField(a.speed, a.course).value, AltitudeField(a.altitude).value;
    Regroup(a.callsign, a.path, header, motion, altitude, fullComment);
  }

  lemma Regroup(source: string, path: string, header: string, motion: string, altitude: string, comment: string)
    ensures (source + ">" + ToCall + path + ":" + header) + motion + altitude + " " + comment
      == source + ['>'] + (ToCall + (path + [':'] + (header + motion + altitude + " " + comment)))
  {
  }

  lemma {:induction false} DecodeFrame(source: string, path: string, body: string)
    requires '>' !in source && ':' !in path
    ensures Decode(source + ['>'] + (ToCall + (path + [':'] + body))) == DecodeBody(source, path, body)
  {
    var addressed := path + [':'] + body;
    FirstIndexAfter(source, '>', ToCall + addressed);
    assert (ToCall + addressed)[..|ToCall|] == ToCall && (ToCall + addressed)[|ToCall|..] == addressed;
    FirstIndexAfter(path, ':', body);
  }

  /** A body made of a well-formed header, a motion field and a tail reads back field by field. */
  lemma BodyParts(source: string, path: string, header: string, motion: string, tail: string, r: Report)
    requires HeaderShape(header) && |motion| == 7
    requires r.source == source && r.path == path
    requires UtcTime(DigitsValue(header[1..3]), DigitsValue(header[3..5]), DigitsValue(header[5..7])) == r.time
    requires header[8..16] == r.latitude && header[16..17] == r.symbolTable && header[17..26] == r.longitude
    requires DecodeMotion(motion) == Some(r.motion)
    requires DecodeTail(tail) == Some((r.altitudeFeet, r.comment))
    ensures DecodeBody(source, path, header + motion + tail) == Some(r)
  {
    var b := header + motion + tail;
    assert b[..27] == header && b[27..34] == motion && b[34..] == tail;
  }

  lemma FieldsReadBack(a: PacketArgs, t: UtcTime, fullComment: string)
    requires Readable(a, t)
    ensures MotionField(a.speed, a.course).Success? && AltitudeField(a.altitude).Success?
    ensures |MotionField(a.speed, a.course).value| == 7
    ensures DecodeMotion(MotionField(a.speed, a.course).value) == Some(Expected(a, t, fullComment).motion)
    ensures DecodeTail(AltitudeField(a.altitude).value + " " + fullComment)
      == Some((Expected(a, t, fullComment).altitudeFeet, fullComment))
  {
    MotionReadBack(a.speed, a.course);
    TailReadBack(a.altitude, fullComment);
  }

  lemma BodyDecode(a: PacketArgs, t: UtcTime, fullComment: string)
    requires Readable(a, t)
    ensures MotionField(a.speed, a.course).Success? && AltitudeField(a.altitude).Success?
    ensures DecodeBody(a.callsign, a.path, Body(a, t, fullComment)) == Some(Expected(a, t, fullComment))
  {
    FieldsReadBack(a, t, fullComment);
    var header := Header(a, t);
    HeaderReadBack(t, a.latitude, a.symbolTable, a.longitude);
    var motion := MotionField(a.speed, a.course).value;
    var tail := AltitudeField(a.altitude).value + " " + fullComment;
    assert Body(a, t, fullComment) == header + motion + tail;
    BodyParts(a.callsign, a.path, header, motion, tail, Expected(a, t, fullComment));
  }

  /** A report assembled from readable arguments reads back as what was put in: the source,
      the path, the time, the position fields, the truncated speed and course, the altitude
      in feet and the comment. */
  lemma AssembleDecode(a: PacketArgs, t: UtcTime, fullComment: string)
    requires Readable(a, t)
    ensures Assemble(a, t, fullComment).Success?
    ensures Decode(Assemble(a, t, fullComment).value) == Some(Expected(a, t, fullComment))
  {
    BodyDecode(a, t, fullComment);
    AssembleFrame(a, t, fullComment);
    DecodeFrame(a.callsign, a.path, Body(a, t, fullComment));
  }

  /** Every report Encode builds from readable arguments reads back with the full comment,
      status items first, as its comment. */
  lemma EncodeDecode(a: PacketArgs, t: UtcTime)
    requires Readable(a, t)
    ensures Encode(a, t).Success?
    ensures Decode(Encode(a, t).value) == Some(Expected(a, t, FullComment(a)))
  {
    AssembleDecode(a, t, FullComment(a));
  }
}
