/**
 * The form side of sending a packet in APRS.py: the required-field check and
 * the comment composition of `send_packet` (APRS.py:1026-1054), the argument
 * mapping of `_send_packet_thread` (APRS.py:1056-1082), `float()` as it reads
 * the numeric fields, and the log lines `_handle_send_result` writes
 * (APRS.py:1084-1104).  Widgets, message boxes and threads are not modelled;
 * each entry is the string its `get()` returns.
 */
module SendForm {
  import opened Wrappers
  import opened Text
  import Passcode
  import opened PositionReport
  import opened Transmission

  /** What `get_user_inputs` collects: every entry as a string. */
  datatype FormInputs = FormInputs(
    callsign: string,
    path: string,
    latitude: string,
    longitude: string,
    symbolTable: string,
    symbolCode: string,
    comment: string,
    speed: string,
    course: string,
    altitude: string,
    status: string,
    power: string,
    antennaHeight: string,
    gain: string,
    deviceInfo: string,
    softwareInfo: string)

  /** How `send_packet` ends: refused for a missing field, or handed to the sending thread. */
  datatype SendStart =
    | MissingFields
    | Started(ssidWarning: bool, fullComment: string)

  /** Callsign, latitude and longitude must all be non-empty. */
  predicate RequiredFieldsPresent(f: FormInputs) {
    f.callsign != "" && f.latitude != "" && f.longitude != ""
  }

  /** The comment, then a space and the status when a status was entered. */
  function ComposeComment(comment: string, status: string): string {
    if status != "" then comment + " " + status else comment
  }

  /** `send_packet` up to the thread start; a callsign without '-' draws a warning but is still sent. */
  function SendPacket(f: FormInputs): (r: SendStart)
    ensures r.MissingFields? <==> !RequiredFieldsPresent(f)
  {
    if !RequiredFieldsPresent(f) then MissingFields
    else Started('-' !in f.callsign, ComposeComment(f.comment, f.status))
  }

  /** `x if x else None` for an entry's string. */
  function EmptyToNone(s: string): (r: Option<string>)
    ensures r.None? <==> s == ""
    ensures r.Some? ==> r.value == s
  {
    if s == "" then None else Some(s)
  }

  // ---------------------------------------------------------------------------
  // float() on an entry

  /** The sign of a numeral: whether it is negative, and the text after an optional '+' or '-'. */
  function Unsigned(s: string): (bool, string) {
    if |s| > 0 && (s[0] == '-' || s[0] == '+') then (s[0] == '-', s[1..]) else (false, s)
  }

  /** `float(s)` for surrounding whitespace, an optional sign, digits and an optional fraction
      with at least one digit in all; any other text is reported as rejected. */
  function ParseNumber(s: string): NumberText {
    var (negative, numeral) := Unsigned(Passcode.Strip(s));
    var (whole, fraction) := SplitDot(numeral);
    if AllDigits(whole) && AllDigits(fraction) && 0 < |whole| + |fraction| then
      Number(Decimal(negative, DigitsValue(whole + fraction), |fraction|))
    else
      Malformed(s)
  }

  /** The text before the first '.' and the text after it (empty when there is no '.'). */
  function SplitDot(numeral: string): (string, string) {
    var dot := FirstIndex(numeral, '.');
    (numeral[..dot], if dot < |numeral| then numeral[dot + 1..] else "")
  }

  /** A numeral spelled out: an optional minus sign, the whole digits, and a '.' with the fraction digits. */
  function Spelled(negative: bool, whole: string, dotted: bool, fraction: string): string {
    (if negative then "-" else "") + whole + (if dotted then "." + fraction else "")
  }

  /** The plain decimal numeral of a number: sign, whole part, and all `scale` fraction digits. */
  function Numeral(d: Decimal): string {
    var p := Pow10(d.scale);
    Spelled(d.negative, NatToString(Quotient(d.units, p)), d.scale > 0,
      if d.scale > 0 then FormatInt(d.units % p, d.scale) else "")
  }

  /** `float()` reads every spelled-out numeral as the number its digits and their scale give. */
  lemma ParseSpelled(negative: bool, whole: string, dotted: bool, fraction: string)
    requires AllDigits(whole) && AllDigits(fraction) && 0 < |whole| + |fraction|
    requires dotted || fraction == ""
    ensures ParseNumber(Spelled(negative, whole, dotted, fraction))
      == Number(Decimal(negative, DigitsValue(whole + fraction), |fraction|))
  {
    var numeral := whole + (if dotted then "." + fraction else "");
    var s := Spelled(negative, whole, dotted, fraction);
    SpelledStrip(negative, whole, dotted, fraction);
    SpelledSign(negative, whole, dotted, fraction);
    SplitDotOf(whole, dotted, fraction);
    ParseParts(s, negative, numeral, whole, fraction);
  }

  lemma SpelledStrip(negative: bool, whole: string, dotted: bool, fraction: string)
    requires AllDigits(whole) && AllDigits(fraction)
    ensures Passcode.Strip(Spelled(negative, whole, dotted, fraction)) == Spelled(negative, whole, dotted, fraction)
  {
    SpelledHasNoSpace(negative, whole, dotted, fraction);
    Passcode.StripNoSpace(Spelled(negative, whole, dotted, fraction));
  }

  lemma SpelledSign(negative: bool, whole: string, dotted: bool, fraction: string)
    requires AllDigits(whole) && (whole == [] ==> dotted)
    ensures Unsigned(Spelled(negative, whole, dotted, fraction))
      == (negative, whole + (if dotted then "." + fraction else ""))
  {
    var tail := if dotted then "." + fraction else "";
    AppendRegroup(if negative then "-" else "", whole, tail);
    UnsignedOf(negative, whole, whole + tail);
  }

  /** `ParseNumber` once the strip, the sign and the split at '.' are known. */
  lemma ParseParts(s: string, negative: bool, numeral: string, whole: string, fraction: string)
    requires Passcode.Strip(s) == s && Unsigned(s) == (negative, numeral)
    requires SplitDot(numeral) == (whole, fraction)
    requires AllDigits(whole) && AllDigits(fraction) && 0 < |whole| + |fraction|
    ensures ParseNumber(s) == Number(Decimal(negative, DigitsValue(whole + fraction), |fraction|))
  {
  }

  lemma SpelledHasNoSpace(negative: bool, whole: string, dotted: bool, fraction: string)
    requires AllDigits(whole) && AllDigits(fraction)
    ensures var s := Spelled(negative, whole, dotted, fraction);
      forall i :: 0 <= i < |s| ==> !Passcode.IsSpace(s[i])
  {
    var sign := if negative then "-" else "";
    var s := Spelled(negative, whole, dotted, fraction);
    forall i | 0 <= i < |s| ensures !Passcode.IsSpace(s[i]) {
      assert s[i] == '-' || s[i] == '.' || IsDigit(s[i]) by {
        if i < |sign| { assert s[i] == sign[i]; }
        else if i - |sign| < |whole| { assert s[i] == whole[i - |sign|]; }
        else if i - |sign| > |whole| { assert s[i] == fraction[i - |sign| - |whole| - 1]; }
      }
    }
  }

  lemma UnsignedOf(negative: bool, whole: string, numeral: string)
    requires AllDigits(whole) && whole <= numeral
    requires whole == [] ==> numeral == [] || numeral[0] == '.'
    ensures Unsigned((if negative then "-" else "") + numeral) == (negative, numeral)
  {
    if negative {
      assert ("-" + numeral)[1..] == numeral;
    } else {
      assert "" + numeral == numeral;
    }
    if whole != [] {
      assert numeral[0] == whole[0] && IsDigit(whole[0]);
    }
  }

  lemma SplitDotOf(whole: string, dotted: bool, fraction: string)
    requires AllDigits(whole)
    requires dotted || fraction == ""
    ensures SplitDot(whole + (if dotted then "." + fraction else "")) == (whole, fraction)
  {
    assert '.' !in whole;
    if dotted {
      assert whole + ("." + fraction) == whole + ['.'] + fraction;
      FirstIndexAfter(whole, '.', fraction);
    } else {
      assert whole + "" == whole;
    }
  }

  /** `float()` reads back the plain numeral of any number: parsing is the inverse of `Numeral`. */
  lemma ParseNumeral(d: Decimal)
    ensures ParseNumber(Numeral(d)) == Number(d)
  {
    var p := Pow10(d.scale);
    var whole := NatToString(Quotient(d.units, p));
    var fraction := if d.scale > 0 then FormatInt(d.units % p, d.scale) else "";
    assert DigitsValue(whole + fraction) == d.units && |fraction| == d.scale by {
      FractionValue(d.units, d.scale, fraction);
      DigitsValueOfNatToString(Quotient(d.units, p));
      DigitsValueConcat(whole, fraction);
    }
    ParseSpelled(d.negative, whole, d.scale > 0, fraction);
  }

  /** The fraction digits of `Numeral` read back as the remainder below 10^scale. */
  lemma FractionValue(units: nat, scale: nat, fraction: string)
    requires fraction == if scale > 0 then FormatInt(units % Pow10(scale), scale) else ""
    ensures AllDigits(fraction) && |fraction| == scale
    ensures Quotient(units, Pow10(scale)) * Pow10(|fraction|) + DigitsValue(fraction) == units
  {
    QuotientRemainder(units, Pow10(scale));
    if scale > 0 {
      FormatIntValue(units % Pow10(scale), scale);
    }
  }

  /** `int(float(w + "." + f))` for digit strings keeps only the whole part, whatever the fraction. */
  lemma ParseTruncates(whole: string, fraction: string)
    requires AllDigits(whole) && AllDigits(fraction) && 0 < |whole| + |fraction|
    ensures ParseNumber(whole + "." + fraction).Number?
    ensures Truncate(ParseNumber(whole + "." + fraction).value) == DigitsValue(whole)
  {
    DottedSpelling(whole, fraction);
    ParseSpelled(false, whole, true, fraction);
    WholePart(whole, fraction);
  }

  lemma DottedSpelling(whole: string, fraction: string)
    ensures Spelled(false, whole, true, fraction) == whole + "." + fraction
  {
    assert "" + whole == whole;
  }

  /** Truncating digits read with a scale of |fraction| leaves the whole digits' value. */
  lemma WholePart(whole: string, fraction: string)
    requires AllDigits(whole) && AllDigits(fraction)
    ensures Truncate(Decimal(false, DigitsValue(whole + fraction), |fraction|)) == DigitsValue(whole)
  {
    DigitsValueConcat(whole, fraction);
    DigitsValueBound(fraction);
    QuotientOf(DigitsValue(whole), Pow10(|fraction|), DigitsValue(fraction));
  }

  /** Text without a single digit is rejected, so `int(float(...))` raises on it. */
  lemma NoDigitRejected(s: string)
    requires forall i :: 0 <= i < |s| ==> !IsDigit(s[i])
    ensures ParseNumber(s) == Malformed(s)
  {
    var left := Passcode.TrimLeft(s);
    var t := Passcode.Strip(s);
    forall i | 0 <= i < |t| ensures !IsDigit(t[i]) {
      assert t[i] == left[i] == s[|s| - |left| + i];
    }
    var numeral := Unsigned(t).1;
    assert forall i :: 0 <= i < |numeral| ==> !IsDigit(numeral[i]);
    var dot := FirstIndex(numeral, '.');
    var (whole, fraction) := SplitDot(numeral);
    if whole != [] {
      assert whole[0] == numeral[0];
    }
    if fraction != [] {
      assert fraction[0] == numeral[dot + 1];
    }
  }

  /** The arguments `_send_packet_thread` passes to `send_aprs_packet`; no word is passed, so it is computed. */
  function ToArgs(f: FormInputs, fullComment: string): PacketArgs {
    PacketArgs(
      f.callsign, f.path, f.latitude, f.longitude, f.symbolTable, f.symbolCode, fullComment,
      None,
      ReadEntry(f.speed), ReadEntry(f.course), ReadEntry(f.altitude),
      EmptyToNone(f.power), EmptyToNone(f.antennaHeight), EmptyToNone(f.gain),
      EmptyToNone(f.deviceInfo), EmptyToNone(f.softwareInfo))
  }

  /** A numeric entry: `None` when empty, otherwise the text `float()` will read. */
  function ReadEntry(s: string): (r: Option<NumberText>)
    ensures r.None? <==> s == ""
  {
    if s == "" then None else Some(ParseNumber(s))
  }

  // ---------------------------------------------------------------------------
  // The log of a send

  /** `str()` of a dictionary value. */
  function Show(v: Value): string {
    match v
    case Str(s) => s
    case Other(repr) => repr
  }

  /** `str(result.get(key, default))`. */
  function Lookup(d: Dict, key: string, default: string): string {
    if key in d then Show(d[key]) else default
  }

  /** A send succeeded exactly when `rs` is the string "ok". */
  predicate Succeeded(d: Dict) {
    "rs" in d && d["rs"] == Str("ok")
  }

  /** `result.get("message", result.get("msg", "未知错误"))`: the default is used only when the key is absent. */
  function ErrorMessage(d: Dict): string {
    if "message" in d then Show(d["message"]) else Lookup(d, "msg", "未知错误")
  }

  /** The excerpt of `raw_response` shown, followed by an ellipsis. */
  function RawExcerpt(v: Value): string {
    match v
    case Str(s) => Take(s, 500)
    case Other(repr) => repr
  }

  /** The lines `_handle_send_result` writes to the log, JSON dump aside. */
  function ResultLog(d: Dict): seq<string> {
    var packet := "构建的数据包内容: " + Lookup(d, "aprs_data", "无");
    var word := "使用的验证码: " + Lookup(d, "aprs_word", "未知");
    if Succeeded(d) then
      [packet, "发送成功! 状态: ok", "消息: " + Lookup(d, "msg", "无"), word]
    else
      [packet, "发送失败! 状态: err", "错误信息: " + ErrorMessage(d), word]
        + (if "raw_response" in d then ["原始响应内容: " + RawExcerpt(d["raw_response"]) + "..."] else [])
  }

  /** `str()` of the ValueError `float()` raises, quoting the rejected text. */
  function ErrorText(e: EncodeError): string {
    "could not convert string to float: '" + e.text + "'"
  }

  /** What the sending thread logs as APRS.py:1080-1081 is written. The callback posted from the
      `except` clause reads the exception's name only once the clause has ended, after Python has
      unbound it, so the callback raises NameError and a raised send logs nothing. */
  function ThreadLogAsWritten(f: FormInputs, fullComment: string, t: UtcTime, reply: Reply): seq<string> {
    match Send(ToArgs(f, fullComment), t, reply)
    case Raised(_) => []
    case Returned(d) => ResultLog(d)
  }

  /** What the sending thread evidently means to log: the error when building the packet raised,
      else the result. */
  function ThreadLog(f: FormInputs, fullComment: string, t: UtcTime, reply: Reply): seq<string> {
    match Send(ToArgs(f, fullComment), t, reply)
    case Raised(e) => ["发送错误: " + ErrorText(e)]
    case Returned(d) => ResultLog(d)
  }

  // ---------------------------------------------------------------------------
  // Properties

  /** The composed comment is the comment unchanged without a status, else comment, one space, status. */
  lemma ComposeCommentParts(comment: string, status: string)
    ensures status == "" ==> ComposeComment(comment, status) == comment
    ensures status != "" ==> var c := ComposeComment(comment, status);
      |c| == |comment| + 1 + |status| && c[..|comment|] == comment && c[|comment|] == ' '
      && c[|comment| + 1..] == status
  {
    if status != "" {
      var c := comment + " " + status;
      assert c[..|comment|] == comment && c[|comment| + 1..] == status;
    }
  }

  /** Every log of a send starts with the packet line; a failure always names an error. */
  lemma ResultLogShape(d: Dict)
    ensures var log := ResultLog(d);
      4 <= |log| && log[0] == "构建的数据包内容: " + Lookup(d, "aprs_data", "无")
      && log[3] == "使用的验证码: " + Lookup(d, "aprs_word", "未知")
      && (Succeeded(d) <==> log[1] == "发送成功! 状态: ok")
      && (!Succeeded(d) ==> log[2] == "错误信息: " + ErrorMessage(d))
      && (|log| == 5 <==> !Succeeded(d) && "raw_response" in d)
  {
  }

  /** The error message falls back from `message` to `msg` to the default, by presence of the keys alone. */
  lemma ErrorMessageFallback(d: Dict)
    ensures "message" in d ==> ErrorMessage(d) == Show(d["message"])
    ensures "message" !in d && "msg" in d ==> ErrorMessage(d) == Show(d["msg"])
    ensures "message" !in d && "msg" !in d ==> ErrorMessage(d) == "未知错误"
  {
  }

  /** A dictionary built for a failed exchange is logged as a failure naming the failure, and
      every returned dictionary shows the packet and the word that were sent. */
  lemma NormalisedLog(reply: Reply, word: string, data: string)
    ensures var log := ResultLog(Normalise(reply, word, data));
      4 <= |log| && log[0] == "构建的数据包内容: " + data && log[3] == "使用的验证码: " + word
    ensures reply.RequestFailed? ==>
      ResultLog(Normalise(reply, word, data))[2] == "错误信息: " + RequestFailedPrefix + reply.error
    ensures reply.NotJson? ==> |ResultLog(Normalise(reply, word, data))| == 5
  {
    NormaliseCarries(reply, word, data);
    ResultLogShape(Normalise(reply, word, data));
    if !reply.JsonObject? {
      NormaliseErrors(reply, word, data);
    }
  }

  /** An empty numeric entry leaves its argument out: no speed or no course gives the blank
      placeholder, and no altitude gives no altitude field. */
  lemma EmptyEntriesOmitted(f: FormInputs, fullComment: string)
    ensures f.speed == "" || f.course == "" ==>
      MotionField(ToArgs(f, fullComment).speed, ToArgs(f, fullComment).course) == Success(NoMotion)
    ensures f.altitude == "" ==> AltitudeField(ToArgs(f, fullComment).altitude) == Success("")
  {
  }

  /** The symbol code chosen on the form never reaches the packet. */
  lemma FormSymbolCodeIgnored(f: FormInputs, fullComment: string, code: string, t: UtcTime)
    ensures Encode(ToArgs(f.(symbolCode := code), fullComment), t) == Encode(ToArgs(f, fullComment), t)
  {
    SymbolCodeIgnored(ToArgs(f, fullComment), t, code);
    assert ToArgs(f.(symbolCode := code), fullComment) == ToArgs(f, fullComment).(symbolCode := code);
  }

  /** A speed the form cannot read, with a course given, ends the send in the intended error line
      quoting that speed, whatever the server would have answered; with no course it is never read. */
  lemma UnreadableSpeedLogged(f: FormInputs, fullComment: string, t: UtcTime, reply: Reply)
    requires f.speed != "" && ParseNumber(f.speed).Malformed?
    ensures f.course != "" ==>
      ThreadLog(f, fullComment, t, reply) == ["发送错误: " + ErrorText(ValueError(f.speed))]
    ensures f.course == "" ==> MotionField(ToArgs(f, fullComment).speed, ToArgs(f, fullComment).course) == Success(NoMotion)
  {
    var a := ToArgs(f, fullComment);
    assert a.speed == Some(Malformed(f.speed)) by {
      assert ParseNumber(f.speed) == Malformed(ParseNumber(f.speed).text);
    }
    if f.course != "" {
      SpeedRefused(a, t, reply, f.speed);
    }
  }

  /** As written, the thread logs nothing for a speed it cannot read with a course given, where
      the evident intent is the error line. */
  lemma UnreadableSpeedUnlogged(f: FormInputs, fullComment: string, t: UtcTime, reply: Reply)
    requires f.speed != "" && f.course != "" && ParseNumber(f.speed).Malformed?
    ensures ThreadLogAsWritten(f, fullComment, t, reply) == []
    ensures ThreadLog(f, fullComment, t, reply) != ThreadLogAsWritten(f, fullComment, t, reply)
  {
    UnreadableSpeedLogged(f, fullComment, t, reply);
    var a := ToArgs(f, fullComment);
    assert a.speed == Some(Malformed(f.speed)) by {
      assert ParseNumber(f.speed) == Malformed(ParseNumber(f.speed).text);
    }
    SpeedRefused(a, t, reply, f.speed);
  }

  /** The two logs differ only when the send raised: then the intended log has the one error line
      and the log as written is empty. */
  lemma AsWrittenLogsResults(f: FormInputs, fullComment: string, t: UtcTime, reply: Reply)
    ensures Send(ToArgs(f, fullComment), t, reply).Returned? ==>
      ThreadLogAsWritten(f, fullComment, t, reply) == ThreadLog(f, fullComment, t, reply)
    ensures Send(ToArgs(f, fullComment), t, reply).Raised? ==>
      ThreadLogAsWritten(f, fullComment, t, reply) == [] && |ThreadLog(f, fullComment, t, reply)| == 1
  {
  }

  /** A speed that cannot be read, with a course present, makes the send raise its error. */
  lemma SpeedRefused(a: PacketArgs, t: UtcTime, reply: Reply, text: string)
    requires a.speed == Some(Malformed(text)) && a.course.Some?
    ensures Send(a, t, reply) == Raised(ValueError(text))
  {
    EncodeFailure(a, t);
  }

  /** An entry with no digit in it, such as "abc", is refused the same way. */
  lemma LetterSpeedLogged(f: FormInputs, fullComment: string, t: UtcTime, reply: Reply)
    requires f.speed != "" && f.course != ""
    requires forall i :: 0 <= i < |f.speed| ==> !IsDigit(f.speed[i])
    ensures ThreadLog(f, fullComment, t, reply) == ["发送错误: " + ErrorText(ValueError(f.speed))]
  {
    NoDigitRejected(f.speed);
    UnreadableSpeedLogged(f, fullComment, t, reply);
  }
}
