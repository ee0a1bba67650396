/**
 The pure helpers of src/utils/Dom.ts: the `html` and `css` template tags,
 the `--` prefixing of `CSSVariablesManager`, the key prefixing of
 `LocalStorageBrowser`, and `DateModel`'s conversions between `HH:MM` text
 and the hour and minute of a `Date`.

 A `Date` is reduced to the time of day it shows (`ClockTime`); the day,
 seconds and time zone play no part in what the extension reads from it.
 */
module Dom {
  import opened Wrappers
  import opened Text

  // ---------------------------------------------------------------------------
  // html and css

  /** The primitive values a template interpolates; numbers are integer-valued. */
  datatype JsValue =
    | JsString(text: string)
    | JsNumber(n: int)
    | JsBool(b: bool)
    | JsNull
    | JsUndefined

  predicate Falsy(v: JsValue) {
    v == JsString("") || v == JsNumber(0) || v == JsBool(false) || v.JsNull? || v.JsUndefined?
  }

  /** `String(v)`, for numbers of magnitude below 10^21 (JavaScript prints
      larger ones in exponent form). */
  function ToText(v: JsValue): string {
    match v
    case JsString(s) => s
    case JsNumber(n) => IntToString(n)
    case JsBool(b) => if b then "true" else "false"
    case JsNull => "null"
    case JsUndefined => "undefined"
  }

  /** `values[i] || ""`: a falsy or missing value contributes nothing, so a
      `0`, `false`, `null` or `undefined` leaves no trace in the markup. */
  function Interpolated(values: seq<JsValue>, i: nat): (r: string)
    ensures i < |values| && !Falsy(values[i]) ==> r == ToText(values[i])
    ensures i >= |values| || Falsy(values[i]) ==> r == ""
  {
    if i < |values| && !Falsy(values[i]) then ToText(values[i]) else ""
  }

  function Concat(parts: seq<string>): string {
    if parts == [] then "" else Concat(parts[..|parts| - 1]) + parts[|parts| - 1]
  }

  /** Each literal piece of the template followed by the value after it. */
  function Pieces(strings: seq<string>, values: seq<JsValue>): (r: seq<string>)
    ensures |r| == |strings|
    ensures forall i :: 0 <= i < |strings| ==> r[i] == strings[i] + Interpolated(values, i)
  {
    seq(|strings|, i requires 0 <= i < |strings| => strings[i] + Interpolated(values, i))
  }

  /** The `html` tag: `strings[0] + v0 + strings[1] + v1 + …`. */
  method Html(strings: seq<string>, values: seq<JsValue>) returns (str: string)
    ensures str == Concat(Pieces(strings, values))
  {
    str := "";
    var i := 0;
    ghost var pieces := Pieces(strings, values);
    while i < |strings|
      invariant 0 <= i <= |strings|
      invariant str == Concat(pieces[..i])
    {
      assert pieces[..i + 1][..i] == pieces[..i];
      str := str + strings[i] + Interpolated(values, i);
      i := i + 1;
    }
    assert pieces[..|strings|] == pieces;
  }

  /** The `css` tag, the same concatenation as `html`. */
  method Css(strings: seq<string>, values: seq<JsValue>) returns (str: string)
    ensures str == Concat(Pieces(strings, values))
  {
    str := Html(strings, values);
  }

  /** When every value is falsy (or there are none), the template is just
      its literal pieces. */
  lemma {:induction false} TemplateOfFalsyValues(strings: seq<string>, values: seq<JsValue>)
    requires forall i :: 0 <= i < |values| ==> Falsy(values[i])
    ensures Concat(Pieces(strings, values)) == Concat(strings)
    decreases |strings|
  {
    if strings != [] {
      var n := |strings| - 1;
      assert Pieces(strings, values)[..n] == Pieces(strings[..n], values);
      TemplateOfFalsyValues(strings[..n], values);
      assert Pieces(strings, values)[n] == strings[n];
    }
  }

  /** Appending a literal piece appends it with its value. */
  lemma TemplateSnoc(strings: seq<string>, s: string, values: seq<JsValue>)
    ensures Concat(Pieces(strings + [s], values))
         == Concat(Pieces(strings, values)) + s + Interpolated(values, |strings|)
  {
    var ps := Pieces(strings + [s], values);
    assert ps[..|strings|] == Pieces(strings, values);
  }

  // ---------------------------------------------------------------------------
  // CSSVariablesManager.formatName and LocalStorageBrowser.getKey

  /** `CSSVariablesManager.formatName`: the custom-property name for `name`. */
  function FormatName(name: string): (r: string)
    ensures StartsWith(r, "--")
    ensures StartsWith(name, "--") ==> r == name
    ensures !StartsWith(name, "--") ==> r == "--" + name
    ensures EndsWith(r, name)
  {
    if StartsWith(name, "--") then name else "--" + name
  }

  /** Formatting twice is formatting once. */
  lemma FormatNameIdempotent(name: string)
    ensures FormatName(FormatName(name)) == FormatName(name)
  {
  }

  const DefaultPrefix: string := ""

  /** `LocalStorageBrowser.getKey`: the prefix, then the key, so the key can
      be read back from the stored name. */
  function GetKey(prefix: string, key: string): (r: string)
    ensures StartsWith(r, prefix) && r[|prefix|..] == key
    ensures prefix == DefaultPrefix ==> r == key
  {
    prefix + key
  }

  /** Under one prefix, distinct keys get distinct storage names. */
  lemma GetKeyInjective(prefix: string, k1: string, k2: string)
    ensures GetKey(prefix, k1) == GetKey(prefix, k2) ==> k1 == k2
  {
  }

  // ---------------------------------------------------------------------------
  // DateModel

  /** The time of day a `Date` shows: `getHours()` and `getMinutes()`. */
  datatype ClockTime = ClockTime(hour: int, minute: int) {
    predicate Valid() {
      0 <= hour < 24 && 0 <= minute < 60
    }

    function MinuteOfDay(): int {
      hour * 60 + minute
    }
  }

  const MinutesPerDay := 24 * 60

  /** The time of day `total` minutes after some midnight, counted from the
      start of its own day as `Date` does when `setHours`/`setMinutes` carry
      over into another day. */
  function TimeOfDay(total: int): (t: ClockTime)
    ensures t.Valid()
    ensures t.MinuteOfDay() == total % MinutesPerDay
  {
    var m := total % MinutesPerDay;
    ClockTime(m / 60, m % 60)
  }

  /** A valid time is the time of day of its own minute of the day. */
  lemma TimeOfDayOfClock(t: ClockTime)
    requires t.Valid()
    ensures TimeOfDay(t.MinuteOfDay()) == t
  {
    var total := t.MinuteOfDay();
    assert total % MinutesPerDay == total;
    assert total / 60 == t.hour && total % 60 == t.minute;
  }

  /** The minutes after today's midnight that `DateModel.convertTimeToDate`
      sets its `Date` to: `setHours(h)` then `setMinutes(m)` with `h` and `m`
      read by `parseInt` from the text before and after the first `:`; they
      may run past the day or before it. `None` is an Invalid Date, which a
      `NaN` field (or a missing `:`) produces. */
  function TimeToMinutes(time: string): (r: Option<int>)
    ensures ':' !in time ==> r.None?
  {
    var hours := ParseInt(SplitFirst(time, ':'));
    var minutesText := SplitSecond(time, ':');
    if hours.None? || minutesText.None? then None
    else
      var minutes := ParseInt(minutesText.value);
      if minutes.None? then None
      else Some(hours.value * 60 + minutes.value)
  }

  /** `DateModel.convertTimeToDate`, as the time of day its `Date` shows,
      for hours and minutes that keep the `Date` within its range. */
  function ConvertTimeToDate(time: string): (r: Option<ClockTime>)
    ensures r.Some? ==> r.value.Valid()
    ensures r.None? <==> TimeToMinutes(time).None?
    ensures r.Some? ==> r.value.MinuteOfDay() == TimeToMinutes(time).value % MinutesPerDay
  {
    match TimeToMinutes(time)
    case None => None
    case Some(total) => Some(TimeOfDay(total))
  }

  /** `String(n).padStart(2, "0")`. */
  function TwoDigitText(n: nat): (s: string)
    requires n < 100
    ensures |s| == 2 && AllDigits(s) && DigitsValue(s) == n
  {
    PaddedTwoDigits(n);
    PadStart(NatToString(n), 2, '0')
  }

  /** `DateModel.convertDateToTime`: the date's hours and minutes as `HH:MM`,
      each zero-padded to two digits. */
  function ConvertDateToTime(t: ClockTime): (r: string)
    requires t.Valid()
    ensures |r| == 5 && r[2] == ':'
    ensures AllDigits(r[..2]) && DigitsValue(r[..2]) == t.hour
    ensures AllDigits(r[3..]) && DigitsValue(r[3..]) == t.minute
  {
    JoinFields(TwoDigitText(t.hour), ':', TwoDigitText(t.minute));
    TwoDigitText(t.hour) + ":" + TwoDigitText(t.minute)
  }

  /** `DateModel.convertDateToTime` of any `Date`, valid or not: an Invalid
      Date has `NaN` hours and minutes, which print as `NaN`. */
  function DateText(d: Option<ClockTime>): (r: string)
    requires d.Some? ==> d.value.Valid()
    ensures d.None? ==> r == "NaN:NaN"
    ensures d.Some? ==> r == ConvertDateToTime(d.value)
  {
    match d
    case None => "NaN:NaN"
    case Some(t) => ConvertDateToTime(t)
  }

  /** Valid `HH:MM` text: two digits, a colon, two digits, within a day. */
  predicate IsClockText(s: string) {
    && |s| == 5 && s[2] == ':'
    && AllDigits(s[..2]) && AllDigits(s[3..])
    && DigitsValue(s[..2]) < 24 && DigitsValue(s[3..]) < 60
  }

  /** The two fields of text shaped `DD:DD` and the numbers they read as. */
  lemma ClockTextFields(s: string)
    requires |s| == 5 && s[2] == ':' && AllDigits(s[..2]) && AllDigits(s[3..])
    ensures SplitFirst(s, ':') == s[..2] && SplitSecond(s, ':') == Some(s[3..])
    ensures ParseInt(s[..2]) == Some(DigitsValue(s[..2]))
    ensures ParseInt(s[3..]) == Some(DigitsValue(s[3..]))
  {
    assert s == s[..2] + [':'] + s[3..];
    SplitOfJoin(s[..2], ':', s[3..]);
    ParseIntOfDigits(s[..2]);
    ParseIntOfDigits(s[3..]);
  }

  /** Text shaped `DD:DD` is read field by field. */
  lemma ReadClockText(s: string)
    requires |s| == 5 && s[2] == ':' && AllDigits(s[..2]) && AllDigits(s[3..])
    ensures TimeToMinutes(s).Some? && TimeToMinutes(s).value == DigitsValue(s[..2]) * 60 + DigitsValue(s[3..])
  {
    ClockTextFields(s);
    MinutesOfFields(s, DigitsValue(s[..2]), DigitsValue(s[3..]));
  }

  /** Text whose two fields read as `h` and `m` is `h * 60 + m` minutes. */
  lemma MinutesOfFields(time: string, h: int, m: int)
    requires ParseInt(SplitFirst(time, ':')) == Some(h)
    requires SplitSecond(time, ':').Some? && ParseInt(SplitSecond(time, ':').value) == Some(m)
    ensures TimeToMinutes(time).Some? && TimeToMinutes(time).value == h * 60 + m
  {
  }

  /** Text whose minute total is that of a valid time sets that time. */
  lemma DateOfMinutes(time: string, t: ClockTime)
    requires t.Valid() && TimeToMinutes(time).Some? && TimeToMinutes(time).value == t.MinuteOfDay()
    ensures ConvertTimeToDate(time) == Some(t)
  {
    TimeOfDayOfClock(t);
  }

  /** Valid `HH:MM` text sets the time it shows, within today. */
  lemma ClockTextTime(s: string)
    requires IsClockText(s)
    ensures var t := ClockTime(DigitsValue(s[..2]), DigitsValue(s[3..]));
      && t.Valid() && ConvertTimeToDate(s) == Some(t)
      && TimeToMinutes(s).Some? && TimeToMinutes(s).value == t.MinuteOfDay()
  {
    ReadClockText(s);
    DateOfMinutes(s, ClockTime(DigitsValue(s[..2]), DigitsValue(s[3..])));
  }

  /** Valid `HH:MM` text sets a time within today: its minute total is the
      minute of the day it shows. */
  lemma ClockTextMinutes(s: string)
    requires IsClockText(s)
    ensures TimeToMinutes(s).Some? && ConvertTimeToDate(s).Some?
    ensures TimeToMinutes(s).value == ConvertTimeToDate(s).value.MinuteOfDay()
  {
    ClockTextTime(s);
  }

  /** The time of day that text shaped `HH:MM` stands for. */
  function ReadClock(s: string): (t: ClockTime)
    requires IsClockText(s)
    ensures t.Valid()
    ensures ConvertTimeToDate(s) == Some(t)
    ensures TimeToMinutes(s).Some? && TimeToMinutes(s).value == t.MinuteOfDay()
  {
    ClockTextMinutes(s);
    ConvertTimeToDate(s).value
  }

  /** Writing a time and reading it back gives the same time. */
  lemma TimeRoundTrip(t: ClockTime)
    requires t.Valid()
    ensures IsClockText(ConvertDateToTime(t))
    ensures ConvertTimeToDate(ConvertDateToTime(t)) == Some(t)
  {
    var s := ConvertDateToTime(t);
    assert IsClockText(s);
    ClockTextTime(s);
  }

  /** Whatever `Date` is written, reading the text back gives it again: an
      Invalid Date stays invalid. */
  lemma DateTextRoundTrip(d: Option<ClockTime>)
    requires d.Some? ==> d.value.Valid()
    ensures ConvertTimeToDate(DateText(d)) == d
  {
    if d.Some? {
      TimeRoundTrip(d.value);
    } else {
      NaNTextInvalid();
    }
  }

  /** The text of an Invalid Date reads back as an Invalid Date. */
  lemma NaNTextInvalid()
    ensures TimeToMinutes("NaN:NaN") == None
  {
    var nan := "NaN";
    NonNumericHours(nan, nan);
    assert nan + [':'] + nan == "NaN:NaN";
  }

  /** Hours that do not start like a number make the whole time invalid. */
  lemma NonNumericHours(hours: string, minutes: string)
    requires ':' !in hours && ':' !in minutes
    requires hours != [] && !IsJsWhiteSpace(hours[0]) && !IsDigit(hours[0]) && hours[0] != '-' && hours[0] != '+'
    ensures TimeToMinutes(hours + [':'] + minutes) == None
  {
    SplitOfJoin(hours, ':', minutes);
    ParseIntOfNonNumeric(hours);
  }

  /** Reading valid `HH:MM` text and writing the time back gives the same text. */
  lemma ClockTextRoundTrip(s: string)
    requires IsClockText(s)
    ensures ConvertTimeToDate(s).Some?
    ensures ConvertDateToTime(ConvertTimeToDate(s).value) == s
  {
    ClockTextTime(s);
    WriteClockFields(s);
  }

  /** Valid `HH:MM` text is what `convertDateToTime` writes for its fields. */
  lemma WriteClockFields(s: string)
    requires IsClockText(s)
    ensures ConvertDateToTime(ClockTime(DigitsValue(s[..2]), DigitsValue(s[3..]))) == s
  {
    var t := ClockTime(DigitsValue(s[..2]), DigitsValue(s[3..]));
    PaddedOfTwoDigits(s[..2]);
    PaddedOfTwoDigits(s[3..]);
    assert TwoDigitText(t.hour) == s[..2];
    assert TwoDigitText(t.minute) == s[3..];
    assert s == s[..2] + ":" + s[3..];
  }

  /** The error `militaryToStandardTime` throws: reading `padStart` of the
      `undefined` minutes of a text without `:`. */
  datatype TypeError = MinutesUndefined

  /** `hour % 12` with JavaScript's `%`, whose result takes the sign of the
      dividend. */
  function JsRemainder12(h: int): (r: int)
    ensures -12 < r < 12
    ensures h >= 0 ==> r == h % 12
  {
    if h >= 0 then h % 12 else -((-h) % 12)
  }

  /** `hour % 12 || 12` as text; a `NaN` hour (`None`) gives `12`. */
  function StandardHour(hour: Option<int>): string {
    match hour
    case None => "12"
    case Some(h) => if JsRemainder12(h) == 0 then "12" else IntToString(JsRemainder12(h))
  }

  /** `hour >= 12 ? "PM" : "AM"`; `NaN >= 12` is false. */
  function Meridiem(hour: Option<int>): string {
    if hour.Some? && hour.value >= 12 then "PM" else "AM"
  }

  /** `DateModel.militaryToStandardTime`. */
  function MilitaryToStandardTime(militaryTime: string): (r: Result<string, TypeError>)
    ensures r.Err? <==> ':' !in militaryTime
  {
    var hour := ParseInt(SplitFirst(militaryTime, ':'));
    var minutes := SplitSecond(militaryTime, ':');
    if minutes.None? then Err(MinutesUndefined)
    else Ok(StandardHour(hour) + ":" + PadStart(minutes.value, 2, '0') + " " + Meridiem(hour))
  }

  /** The 12-hour clock reading of hour 0..23, case by case. */
  function DisplayHour(h: int): (d: int)
    requires 0 <= h < 24
    ensures 1 <= d <= 12
  {
    if h == 0 then 12 else if h <= 12 then h else h - 12
  }

  /** On a day's hours, `hour % 12 || 12` and the AM/PM choice agree with the
      12-hour clock: 0 is 12 AM, 1–11 AM, 12 is 12 PM and 13–23 are 1–11 PM. */
  lemma StandardHourOfDay(h: int)
    requires 0 <= h < 24
    ensures StandardHour(Some(h)) == NatToString(DisplayHour(h))
    ensures Meridiem(Some(h)) == if h < 12 then "AM" else "PM"
  {
    DayHourRemainder(h);
    if h % 12 != 0 {
      assert IntToString(h % 12) == NatToString(h % 12);
    }
  }

  lemma DayHourRemainder(h: int)
    requires 0 <= h < 24
    ensures h % 12 == if h < 12 then h else h - 12
  {
  }

  /** Converting a written time gives its 12-hour reading with the minutes
      padded to two digits. */
  lemma StandardTimeOfClockTime(t: ClockTime)
    requires t.Valid()
    ensures MilitaryToStandardTime(ConvertDateToTime(t)) == Ok(
      NatToString(DisplayHour(t.hour)) + ":" + TwoDigitText(t.minute)
      + " " + (if t.hour < 12 then "AM" else "PM"))
  {
    var s := ConvertDateToTime(t);
    ClockTextFields(s);
    StandardHourOfDay(t.hour);
    assert s[3..] == TwoDigitText(t.minute);
  }
}
