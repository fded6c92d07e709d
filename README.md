# APRS position-report sender, modelled in Dafny

APRS.py is a desktop tool that builds APRS position reports and posts them to the
aprs.tv web endpoint, either when the user asks or on a timer. This project models
the logic of that program and proves properties of the model:

- **Passcode** — the APRS-IS verification code (`calculate_aprs_verification_code`).
  The callsign is upper-cased and stripped, then cut at its first `-`. Its characters
  are XORed into `0x73e2`, even positions shifted left by 8 bits. The result is masked
  to 15 bits. The accumulator is a `bv32`, and the character loop is a method proved
  against a recursive specification function.
- **Coordinates** — `decimal_to_aprs_lat` and `decimal_to_aprs_lon`. The input is an
  integer count of millionths of a degree, and the `.2f` rounding is done exactly.
- **PositionReport** — the packet-building half of `send_aprs_packet`, written as a
  function:
  - `CALL>APRSTV,PATH:/HHMMSSh<lat><table><lon>e`;
  - `sss/ccc` or the seven-character placeholder;
  - an optional `/A=ffffff`;
  - a space and the full comment.
  A decoder is its partner, and an all-inputs lemma reads every readable report back.
- **Transmission** — `send_aprs_packet` as a whole:
  - a method grows `aprs_data` with `+=` and `status_info` by appends, and is proved
    equal to the function;
  - the HTTP outcome is an input;
  - the result dictionary is normalised from it.
- **SendForm** — the pure parts of the form:
  - the required-field check and the comment + status composition;
  - the empty-to-`None` argument mapping;
  - `float()` on the numeric entries, with a parse/print round trip;
  - the log lines written for a result.
- **Scheduler** — a class whose `enabled` field `Toggle` flips, and a `ScheduleLoop`
  method that posts a send and sleeps while the flag stays set.
- **Text** and **Wrappers** — shared pieces:
  - decimal strings, `f"{n:0Wd}"` padding with the sign inside the width, `s[:n]`,
    `" ".join` and first-index search;
  - `Option` and `Result`.

The clock, the network and the widgets are parameters or left out (see below).

## Model

| member | source | states |
|---|---|---|
| Passcode.CalculateVerificationCode | APRS.py:13-36 | The method's result equals the specification `VerificationCode` of the callsign and is at most 32767. |
| Passcode.XorAll | APRS.py:29-32 | The loop leaves the accumulator equal to `0x73e2` with every character's term XORed in, in order. |
| Passcode.VerificationCode | APRS.py:24-35 | The code is in 0..32767, and it is 29666 (`0x73e2`) when the base callsign is empty. |
| Passcode.SsidIgnored | APRS.py:25-26 | A callsign with `-SSID` appended has the same code as the bare callsign. |
| Passcode.CaseInsensitive | APRS.py:24 | Two callsigns that agree after upper-casing have the same code. |
| Passcode.PaddingIgnored | APRS.py:24 | Surrounding whitespace, as `str.isspace` defines it, does not change the code. |
| Passcode.SameBaseSameCode | APRS.py:24-35 | The code depends only on the stripped, upper-cased callsign cut before its first `-`. |
| Passcode.N0CallVariants | APRS.py:24-35 | "N0CALL", "n0call-1" and " N0CALL-7 " all give 13023. |
| Passcode.BeforeDash | APRS.py:25-26 | The base is a prefix of the string with no `-` in it, and the string continues with `-` if it is longer. |
| Passcode.Upper | APRS.py:24 | Upper-casing keeps the length and maps each character by `UpperChar`. |
| Passcode.TrimLeft | APRS.py:24 | What is removed is all whitespace, what remains is a suffix, and it does not start with whitespace. |
| Passcode.TrimRight | APRS.py:24 | What is removed is all whitespace, what remains is a prefix, and it does not end with whitespace. |
| Coordinates.ToAprsRoundTrip | APRS.py:865-879 | Reading a converted coordinate back gives the hemisphere of its sign and the magnitude within 0.005 minute. |
| Coordinates.LatitudeLayout | APRS.py:865-871 | Below 100 degrees a latitude is "ddmm.mm" and N or S (8 characters), and its first two digits are the whole degrees. |
| Coordinates.LongitudeLayout | APRS.py:873-879 | Below 1000 degrees a longitude is "dddmm.mm" and E or W (9 characters), and its first three digits are the whole degrees. |
| Coordinates.MinuteRounding | APRS.py:869-871 | Rounded minutes are at most 60.00 and within half a hundredth of the exact fractional part × 60. |
| Coordinates.MinutesLayout | APRS.py:871 | `:05.2f` minutes are two digits, a point and two digits, which read back as the whole and hundredths. |
| Coordinates.DefaultLatitude | APRS.py:865-871 | 29.7960 gives "2947.76N". |
| Coordinates.DefaultLongitude | APRS.py:873-879 | 119.6853 gives "11941.12E". |
| Coordinates.SouthWest | APRS.py:865-879 | -5.5 gives "0530.00S" and "00530.00W". |
| Text.FormatSignedValue | APRS.py:99-110 | `f"{n:0Wd}"` reads back as n: digits alone when n ≥ 0, a minus sign then the digits of -n when n < 0. |
| Text.FormatInt | APRS.py:99-110 | The padded number is all digits, exactly `width` long when n < 10^width, and never shorter than `str(n)`. |
| Text.NatToString | APRS.py:83 | `str(n)` is non-empty digits with no leading zero, and one digit exactly when n < 10. |
| Text.DigitsValueOfNatToString | APRS.py:83 | `str(n)` reads back as n. |
| Text.Take | APRS.py:189 | `s[:n]` is a prefix of s, of length min(\|s\|, n). |
| Text.JoinEmpty | APRS.py:136-139 | `" ".join(items)` is empty exactly when there are no items or one empty item. |
| PositionReport.ReadInt | APRS.py:99-101 | `int(float(x))` fails exactly on text `float()` rejects. |
| PositionReport.MotionField | APRS.py:97-104 | The motion field fails exactly when speed and course are both given and one of them cannot be read. |
| PositionReport.AltitudeField | APRS.py:107-110 | The altitude field fails exactly when an altitude is given and cannot be read. |
| PositionReport.EncodeFailure | APRS.py:97-110 | Building fails exactly on an unreadable speed or course (when both are given) or altitude, and the error names speed first, then course, then altitude. |
| PositionReport.SymbolCodeIgnored | APRS.py:94 | The `symbol_code` argument never changes the packet; the symbol is always `e`. |
| PositionReport.StatusEmpty | APRS.py:113-142 | The full comment is the comment alone when no status item is present, else the space-joined items, a space and the comment. |
| PositionReport.TimestampDigits | APRS.py:90-91 | A valid UTC time is written as six digits that read back as hour, minute and second. |
| PositionReport.MotionPlaceholder | APRS.py:103-104 | Without both speed and course the field is exactly "   /   " (7 characters, `/` in the middle). |
| PositionReport.TruncateExamples | APRS.py:99-101 | `int(float(x))` gives 45 for "45" and "45.7", 270, 400, and -5 for "-5.9" (towards zero). |
| PositionReport.MotionExamples | APRS.py:97-102 | Speed 45 and course 270 give "045/270"; 45.7 and 400 give "045/400" (course unwrapped); -5.9 gives "-05". |
| PositionReport.AltitudeExample | APRS.py:107-110 | 100 m gives "/A=000328". |
| PositionReport.AprsWord | APRS.py:81-83 | The word is the caller's value unchanged, or decimal digits that read back as the callsign's verification code. |
| PositionReport.AssembleDecode | APRS.py:94-144 | A report assembled from readable arguments decodes to its source, path, time, position fields, truncated speed and course, altitude in feet and comment. |
| PositionReport.EncodeDecode | APRS.py:94-144 | Every packet built from readable arguments succeeds and decodes with the full comment (status items first) as its comment. |
| Transmission.StatusInfo | APRS.py:113-133 | Appending the present items one by one gives power, antenna height, gain, device and software, in that order. |
| Transmission.BuildAprsData | APRS.py:88-144 | Growing `aprs_data` piece by piece gives exactly the encoded packet, or the ValueError it raises. |
| Transmission.SendAprsPacket | APRS.py:80-203 | A call raises when the packet cannot be built, and otherwise returns the reply normalised with the word and the packet. |
| Transmission.NormaliseCarries | APRS.py:193-203 | Every returned dictionary carries `aprs_word` and `aprs_data` with the values used. |
| Transmission.NormaliseKeepsServerFields | APRS.py:184-196 | A JSON object from the server keeps all its other fields and gains exactly the two keys. |
| Transmission.NormaliseErrors | APRS.py:184-203 | A non-object, a non-JSON body or a failed request gives `rs` = "err" and a message; only a non-JSON body adds `raw_response`, the whole body. |
| Transmission.NotJsonMessage | APRS.py:186-191 | The message holds the status code, which reads back, and the first min(\|body\|, 100) characters of the body. |
| Transmission.SendRaises | APRS.py:97-110 | A call raises exactly when building fails, with that error, whatever the server would answer. |
| Transmission.SendCarries | APRS.py:80-203 | A returned dictionary holds the word and the built packet, and a computed word is the verification code in decimal. |
| SendForm.SendPacket | APRS.py:1032-1034 | Sending is refused exactly when callsign, latitude or longitude is empty. |
| SendForm.EmptyToNone | APRS.py:1068-1075 | An entry becomes `None` exactly when it is empty, and otherwise is passed unchanged. |
| SendForm.ReadEntry | APRS.py:1068-1070 | A numeric entry is left out exactly when it is empty. |
| SendForm.ComposeCommentParts | APRS.py:1043-1047 | The comment stays as it is without a status; otherwise it is followed by one space and the status. |
| SendForm.ParseSpelled | APRS.py:99-109 | `float()` reads any signed numeral of digits with an optional fraction as the number of its digits and scale. |
| SendForm.ParseNumeral | APRS.py:99-109 | Parsing the plain numeral of any number gives that number back. |
| SendForm.ParseTruncates | APRS.py:99-101 | `int(float("w.f"))` is the value of the whole digits alone. |
| SendForm.NoDigitRejected | APRS.py:99-109 | Text with no digit in it is rejected. |
| SendForm.ResultLogShape | APRS.py:1084-1104 | The log shows the packet line first and the word line fourth. Success is logged exactly when `rs` is "ok", a failure logs its error message, and `raw_response` adds a fifth line only on failure. |
| SendForm.ErrorMessageFallback | APRS.py:1095 | The error shown is `message` if present, else `msg` if present, else "未知错误", by key presence alone. |
| SendForm.NormalisedLog | APRS.py:1084-1104 | Every normalised result logs the packet and the word sent. A failed request logs "请求失败: " and its error, and a non-JSON body adds the raw-response line. |
| SendForm.EmptyEntriesOmitted | APRS.py:1068-1070 | An empty speed or course gives the placeholder, and an empty altitude gives no altitude field. |
| SendForm.FormSymbolCodeIgnored | APRS.py:1065 | The symbol code chosen on the form never changes the packet. |
| SendForm.UnreadableSpeedUnlogged | APRS.py:1080-1081 | As written, an unreadable speed with a course given logs no line at all, so the log differs from the intended one. |
| SendForm.AsWrittenLogsResults | APRS.py:1078-1081 | The as-written log and the intended log agree on every returned result. When the send raised, the as-written log is empty and the intended log has exactly one line. |
| SendForm.UnreadableSpeedLogged | APRS.py:1080-1081 | In the intended log (see Findings), an unreadable speed with a course given ends in the "发送错误: " line quoting it. With no course the speed is never read. |
| SendForm.LetterSpeedLogged | APRS.py:1080-1081 | In the intended log, a speed with no digit in it, with a course given, is logged as a ValueError quoting it. |
| Scheduler.Scheduler.constructor | APRS.py:632-653 | A new scheduler is disabled with a 30-minute interval, the start label and "状态: 未启动". |
| Scheduler.Scheduler.Toggle | APRS.py:1113-1139 | While enabled, a press always disables. While disabled, it enables and starts a loop only when the interval is positive; otherwise nothing changes and the interval error is reported. |
| Scheduler.Scheduler.ScheduleLoop | APRS.py:1141-1154 | The loop posts `Ticks(flag on entry, flags)` sends and sleeps interval × 60 seconds after each. It ends with the flag as last read. |
| Scheduler.Scheduler.ChooseInterval | APRS.py:632-638 | Choosing an interval changes only the interval. |
| Scheduler.LeadingSet | APRS.py:1145-1154 | The count is the length of the leading run of set flags, bounded by the number of flags. |
| Scheduler.TicksFollowFlag | APRS.py:1145-1154 | Every send after the first follows a sleep that ended with the flag set. A loop stops on the first sleep that ends with the flag cleared. An enabled loop posts at least one send. |
| Scheduler.DisabledLoopIdle | APRS.py:1145 | A loop entered with the flag cleared posts nothing and never sleeps. |
| Scheduler.AlwaysSetTicks | APRS.py:1145-1154 | With the flag set after every sleep, the loop posts one send per sleep. |
| Scheduler.StoppedDuringFirstSleep | APRS.py:1145-1154 | Stopping during the first sleep leaves exactly the one send the loop began with. |
| Scheduler.StartStopStart | APRS.py:1136-1154 | Start, stop and start within one sleep starts two loops, and the flag is set again when the first loop wakes. |

Two consequences of the timed-sending code that the model keeps:

- A stop and a restart within one sleep leave the old loop running beside the new
  one, as `Scheduler.StartStopStart` shows, since the old loop only re-reads the flag
  when its sleep ends. The model does not claim there is ever at most one loop.
- One button toggles, so pressing it while enabled always stops.

## Left out

- The Tkinter interface: layout, map widget, icon catalogue, message boxes, browser opening, and the JSON dump of a result in the log.
- The HTTP POST: headers, timeout and transport. Its outcome is an input (`Transmission.Reply`).
- `datetime.utcnow()`: the UTC time is a parameter.
- Threads, `root.after` and `time.sleep`. A posted send is counted and a sleep is recorded by its length, and the flag as it stands at the end of each sleep is an input to the loop. No interleaving of threads is modelled.
- Scheduler.Scheduler.ScheduleLoop: runs for as many sleeps as it is given flags. The source loop runs unboundedly while the flag stays set.
- The default argument values of `send_aprs_packet` (APRS.py:38-55, such as "N0CALL-1" and "WIDE1-1"). Its only caller passes every argument except `aprs_word`, so nothing depends on them; `PacketArgs` always carries all the arguments.
- The checksum's `except` branch (fallback word "13023"). For a string callsign nothing in the `try` can raise, so the branch is unreachable.
- Passcode.Upper: upper-cases only ASCII `a`–`z`. Python's `str.upper` also maps other letters, some into several characters.
- Floating point:
  - numbers are exact decimals (`PositionReport.Decimal`) and coordinates are millionths of a degree;
  - the `* 3.28084` product and the `.2f` rounding are done exactly, half to even;
  - binary-float edge cases are not covered bit for bit, e.g. a product on an exact boundary, or minutes rounding up to "60.00".
- SendForm.ParseNumber: accepts the `float()` grammar only for an optional sign, digits and an optional fraction, around whitespace. Exponents, underscores, `inf`, `nan` and non-ASCII digits are treated as rejected text. The overflow or NaN errors `int()` would raise on them are not modelled.
- SendForm.ErrorText: quotes the rejected text in single quotes as Python's message does, but does not model `repr` escaping of quotes or control characters.
- SendForm.RawExcerpt: a `raw_response` that is not a string is shown by its `str()` text. Slicing it as Python would, or the TypeError raised for a number, is not modelled.
- Python's `str()` of power, antenna height and gain values: they are opaque strings.
- Dictionary key order, which only the JSON dump would show.
- `tk.IntVar.get()` failing on a non-integer interval: the interval is an integer.

## Findings

| source | as written | input that shows it | evidently intended | confidence | as-written member | corrected member |
|---|---|---|---|---|---|---|
| APRS.py:1080-1081 | The callback posted from `except Exception as e` reads `e` only after the clause has ended. Python 3 has unbound the name by then, so the callback raises NameError and nothing is logged. | The form with speed "abc" and course "90": `float("abc")` raises ValueError, and the log gains no line. | The log line "发送错误: could not convert string to float: 'abc'". | high, not executed | SendForm.UnreadableSpeedUnlogged | SendForm.UnreadableSpeedLogged |
