/**
 * `send_aprs_packet` end to end (APRS.py:80-203): the verification word, the
 * packet grown piece by piece, and the dictionary returned once the HTTP
 * exchange is over.  The exchange itself is not modelled: what the server
 * answered (or the exception the request raised) is an input.
 */
module Transmission {
  import opened Wrappers
  import opened Text
  import Passcode
  import opened PositionReport

  /** A value in the result dictionary: a string, or any other JSON value by its `str()` text. */
  datatype Value = Str(text: string) | Other(repr: string)

  type Dict = map<string, Value>

  /** How the HTTP exchange ended. */
  datatype Reply =
    | JsonObject(fields: Dict)         // `response.json()` gave a dict
    | JsonNonObject(typeError: string) // it gave a list, string, number or null: the item assignment raises TypeError
    | NotJson(status: nat, body: string) // the body is not JSON
    | RequestFailed(error: string)     // the request raised

  /** What a call of `send_aprs_packet` does: return a dictionary, or raise while building the packet. */
  datatype Outcome = Returned(result: Dict) | Raised(error: EncodeError)

  const NotJsonPrefix := "非JSON响应: "
  const RequestFailedPrefix := "请求失败: "
  /** How much of a non-JSON body the message quotes. */
  const BodyExcerpt: nat := 100

  /** The dictionary of the except branch around the request. */
  function FailureDict(error: string, word: string, data: string): Dict {
    map["rs" := Str("err"), "message" := Str(RequestFailedPrefix + error),
        "aprs_word" := Str(word), "aprs_data" := Str(data)]
  }

  /** The dictionary returned once the packet `data` was built with verification word `word`. */
  function Normalise(reply: Reply, word: string, data: string): Dict {
    match reply
    case JsonObject(fields) => fields["aprs_word" := Str(word)]["aprs_data" := Str(data)]
    case JsonNonObject(e) => FailureDict(e, word, data)
    case NotJson(status, body) =>
      map["rs" := Str("err"),
          "message" := Str(NotJsonPrefix + NatToString(status) + " " + Take(body, BodyExcerpt)),
          "raw_response" := Str(body),
          "aprs_word" := Str(word), "aprs_data" := Str(data)]
    case RequestFailed(e) => FailureDict(e, word, data)
  }

  /** The specification of `send_aprs_packet`: raise what building the packet raises, otherwise
      return the normalised reply.  The reply plays no part when the packet cannot be built,
      since the request is never made. */
  function Send(a: PacketArgs, t: UtcTime, reply: Reply): Outcome {
    match Encode(a, t)
    case Failure(e) => Raised(e)
    case Success(data) => Returned(Normalise(reply, AprsWord(a), data))
  }

  /** `status_info`, grown by appending each present item in turn. */
  method StatusInfo(a: PacketArgs) returns (items: seq<string>)
    ensures items == StatusItems(a)
  {
    items := [];
    if a.power.Some? {
      items := items + ["功率" + a.power.value + "W"];
    }
    assert items == PowerItem(a);
    if a.antennaHeight.Some? {
      items := items + ["天线高度" + a.antennaHeight.value + "m"];
    }
    assert items == PowerItem(a) + AntennaItem(a);
    if a.gain.Some? {
      items := items + ["增益" + a.gain.value + "dB"];
    }
    assert items == PowerItem(a) + AntennaItem(a) + GainItem(a);
    if a.deviceInfo.Some? && a.deviceInfo.value != "" {
      items := items + [a.deviceInfo.value];
    }
    assert items == PowerItem(a) + AntennaItem(a) + GainItem(a) + InfoItem(a.deviceInfo);
    if a.softwareInfo.Some? && a.softwareInfo.value != "" {
      items := items + [a.softwareInfo.value];
    }
  }

  /** The packet-building half of `send_aprs_packet`: `aprs_data` grown with `+=`, raising
      ValueError on a number `float()` rejects. */
  method BuildAprsData(a: PacketArgs, t: UtcTime) returns (r: Result<string, EncodeError>)
    ensures r == Encode(a, t)
  {
    var data := PositionBlock(a, t);
    var motion: string;
    if a.speed.Some? && a.course.Some? {
      var speed := ReadInt(a.speed.value);
      if speed.Failure? {
        return Failure(speed.error);
      }
      var course := ReadInt(a.course.value);
      if course.Failure? {
        return Failure(course.error);
      }
      motion := FormatSigned(speed.value, 3) + "/" + FormatSigned(course.value, 3);
    } else {
      motion := NoMotion;
    }
    assert MotionField(a.speed, a.course) == Success(motion);
    data := data + motion;

    var altitude := "";
    if a.altitude.Some? {
      if a.altitude.value.Malformed? {
        return Failure(ValueError(a.altitude.value.text));
      }
      altitude := "/A=" + FormatSigned(Feet(a.altitude.value.value), 6);
      data := data + altitude;
    }
    assert AltitudeField(a.altitude) == Success(altitude);
    assert data == PositionBlock(a, t) + motion + altitude;

    var items := StatusInfo(a);
    var status := Join(items, " ");
    var fullComment := if status != "" then status + " " + a.comment else a.comment;
    assert fullComment == FullComment(a);
    AppendRegroup(data, " ", fullComment);
    data := data + (" " + fullComment);
    AssembleParts(a, t, fullComment);
    r := Success(data);
  }

  lemma AppendRegroup(x: string, y: string, z: string)
    ensures x + (y + z) == x + y + z
  {
  }

  /** `send_aprs_packet`: the verification word, the packet, then the result dictionary. */
  method SendAprsPacket(a: PacketArgs, t: UtcTime, reply: Reply) returns (outcome: Outcome)
    ensures outcome == Send(a, t, reply)
  {
    var word: string;
    if a.aprsWord.None? {
      var code := Passcode.CalculateVerificationCode(a.callsign);
      word := NatToString(code);
    } else {
      word := a.aprsWord.value;
    }
    assert word == AprsWord(a);
    var data := BuildAprsData(a, t);
    if data.Failure? {
      return Raised(data.error);
    }
    outcome := Returned(Normalise(reply, word, data.value));
  }

  // ---------------------------------------------------------------------------
  // Properties of the result dictionary

  /** Whatever the server did, the dictionary carries the word and the packet. */
  lemma NormaliseCarries(reply: Reply, word: string, data: string)
    ensures var d := Normalise(reply, word, data);
      "aprs_word" in d && d["aprs_word"] == Str(word) && "aprs_data" in d && d["aprs_data"] == Str(data)
  {
  }

  /** A dictionary from the server keeps every other field it had, and gains only the two keys. */
  lemma NormaliseKeepsServerFields(fields: Dict, word: string, data: string)
    ensures var d := Normalise(JsonObject(fields), word, data);
      d.Keys == fields.Keys + {"aprs_word", "aprs_data"}
      && forall k :: k in fields && k != "aprs_word" && k != "aprs_data" ==> d[k] == fields[k]
  {
  }

  /** Every way the exchange can fail yields `rs` = "err" and a message naming the failure. */
  lemma NormaliseErrors(reply: Reply, word: string, data: string)
    requires !reply.JsonObject?
    ensures var d := Normalise(reply, word, data);
      "rs" in d && d["rs"] == Str("err") && "message" in d
      && (reply.RequestFailed? ==> d["message"] == Str(RequestFailedPrefix + reply.error) && "raw_response" !in d)
      && (reply.JsonNonObject? ==> d["message"] == Str(RequestFailedPrefix + reply.typeError) && "raw_response" !in d)
      && (reply.NotJson? ==> "raw_response" in d && d["raw_response"] == Str(reply.body))
  {
  }

  /** An unparsable body is reported by its status code, which reads back from the message, and
      by its first hundred characters, while `raw_response` keeps all of it. */
  lemma NotJsonMessage(status: nat, body: string, word: string, data: string)
    ensures var d := Normalise(NotJson(status, body), word, data);
      "message" in d && d["message"].Str? &&
      var m := d["message"].text;
      var digits := NatToString(status);
      var excerpt := Take(body, BodyExcerpt);
      m == NotJsonPrefix + digits + " " + excerpt
      && AllDigits(digits) && DigitsValue(digits) == status
      && excerpt <= body && |excerpt| == (if |body| < 100 then |body| else 100)
  {
    DigitsValueOfNatToString(status);
  }

  // ---------------------------------------------------------------------------
  // Properties of a whole call

  /** A call raises exactly when the packet cannot be built, whatever the server would have said. */
  lemma SendRaises(a: PacketArgs, t: UtcTime, reply: Reply)
    ensures Send(a, t, reply).Raised? <==> Encode(a, t).Failure?
    ensures Send(a, t, reply).Raised? ==> Send(a, t, reply).error == Encode(a, t).error
  {
  }

  /** A call that returns hands back the word and the packet it built, and a computed word is the
      callsign's verification code in decimal. */
  lemma SendCarries(a: PacketArgs, t: UtcTime, reply: Reply)
    requires Send(a, t, reply).Returned?
    ensures var d := Send(a, t, reply).result;
      "aprs_word" in d && d["aprs_word"] == Str(AprsWord(a))
      && "aprs_data" in d && d["aprs_data"] == Str(Encode(a, t).value)
      && (a.aprsWord.None? ==> AllDigits(AprsWord(a)) && DigitsValue(AprsWord(a)) == Passcode.VerificationCode(a.callsign))
  {
    NormaliseCarries(reply, AprsWord(a), Encode(a, t).value);
  }
}
