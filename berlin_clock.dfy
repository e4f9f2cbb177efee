/** The Berlin clock converter (`TimeConverterImpl`): a time written
    `HH:MM:SS` becomes five rows of lamps, joined by the line separator.
    Row 1 blinks with the seconds, rows 2 and 3 count five-hour and one-hour
    blocks in red, rows 4 and 5 count five-minute and one-minute blocks in
    yellow, with every third lamp of row 4 red to mark the quarters. */
module BerlinClock {
  import opened Wrappers
  import opened JavaLang

  /** One variant per error message of the converter; each stands for the
      `IllegalArgumentException` thrown with that message. */
  datatype Error =
    | BlankTime
    | InvalidTime
    | NumericTime
    | HoursOutOfBounds
    | MinutesOutOfBounds
    | SecondsOutOfBounds
  {
    /** The exception's message. */
    function Message(): (m: string)
      ensures m != []
    {
      match this
      case BlankTime => "No time provided"
      case InvalidTime => "Invalid time provided."
      case NumericTime => "Time values must be numeric."
      case HoursOutOfBounds => "Hours out of bounds."
      case MinutesOutOfBounds => "Minutes out of bounds."
      case SecondsOutOfBounds => "Seconds out of bounds."
    }
  }

  /** The three fields of a parsed time, each a Java `int`. */
  datatype Time = Time(hours: int, minutes: int, seconds: int)

  const RedLamp: char := 'R'
  const YellowLamp: char := 'Y'
  const OffLamp: char := 'O'
  const OffFourLamps: string := "OOOO"
  const OffElevenLamps: string := "OOOOOOOOOOO"

  function Max(a: int, b: int): int {
    if a < b then b else a
  }

  /* ---------------------------------------------------------------------- */
  /* Parsing and validation                                                 */
  /* ---------------------------------------------------------------------- */

  /** The range checks, first failure first: hours (only when minutes and
      seconds are both non-zero), then minutes, then seconds. */
  function CheckRanges(t: Time): (r: Option<Error>)
    ensures r.None? ==> 0 <= t.minutes <= 59 && 0 <= t.seconds <= 59
    ensures r.Some? ==> r.value == HoursOutOfBounds || r.value == MinutesOutOfBounds || r.value == SecondsOutOfBounds
  {
    if (t.hours < 0 || t.hours > 23) && (t.minutes != 0 && t.seconds != 0) then Some(HoursOutOfBounds)
    else if t.minutes < 0 || t.minutes > 59 then Some(MinutesOutOfBounds)
    else if t.seconds < 0 || t.seconds > 59 then Some(SecondsOutOfBounds)
    else None
  }

  /** The guard chain of `convertTime` on the fields of the input: exactly
      three, each parsed by `Integer.parseInt`, then the range checks. */
  function CheckFields(times: seq<string>): (r: Result<Time, Error>)
    ensures |times| != 3 ==> r == Failure(InvalidTime)
    ensures r.Success? ==> IsInt(r.value.hours) && IsInt(r.value.minutes) && IsInt(r.value.seconds)
    ensures r.Success? ==> 0 <= r.value.minutes <= 59 && 0 <= r.value.seconds <= 59
  {
    if |times| != 3 then Failure(InvalidTime)
    else
      var hours, minutes, seconds := ParseInt(times[0]), ParseInt(times[1]), ParseInt(times[2]);
      if hours.None? || minutes.None? || seconds.None? then Failure(NumericTime)
      else
        var t := Time(hours.value, minutes.value, seconds.value);
        var failed := CheckRanges(t);
        if failed.Some? then Failure(failed.value) else Success(t)
  }

  /** `convertTime` up to rendering: reject `null`, split on `:`, then
      check the fields. */
  function ParseTime(aTime: Option<string>): (r: Result<Time, Error>)
    ensures aTime.None? ==> r == Failure(BlankTime)
  {
    match aTime
    case None => Failure(BlankTime)
    case Some(s) => CheckFields(Split(s, ':'))
  }

  /* ---------------------------------------------------------------------- */
  /* Lamp rows                                                              */
  /* ---------------------------------------------------------------------- */

  /** The length of the all-off buffer a row starts from. */
  function RowWidth(totalLamps: int): (w: int)
    ensures w == |if totalLamps == 11 then OffElevenLamps else OffFourLamps|
  {
    if totalLamps == 11 then 11 else 4
  }

  /** The colour of the lit lamp at 0-based index `k`: in the eleven-lamp
      row every third lamp is red, elsewhere the row's own colour. */
  function LitLamp(k: int, totalLamps: int, lampType: char): (c: char)
    ensures c == RedLamp || c == lampType
    ensures totalLamps != 11 ==> c == lampType
  {
    if totalLamps == 11 && (k + 1) % 3 == 0 then RedLamp else lampType
  }

  /** The row `processLine(onLamps, totalLamps, lampType)` returns, cell by
      cell: the first `onLamps` cells lit, the others off. When `onLamps`
      exceeds the buffer, the buffer grows to `onLamps` cells. */
  function LampRow(onLamps: int, totalLamps: int, lampType: char): (row: string)
    ensures |row| >= RowWidth(totalLamps) && |row| >= onLamps
    ensures forall k :: 0 <= k < |row| && onLamps <= k ==> row[k] == OffLamp
  {
    seq(Max(RowWidth(totalLamps), onLamps),
        k => if k < onLamps then LitLamp(k, totalLamps, lampType) else OffLamp)
  }

  /** `processLine`: fill an all-off buffer from the left, one
      `StringBuffer.replace(i, i + 1, lamp)` per lit lamp. */
  method ProcessLine(onLamps: int, totalLamps: int, lampType: char) returns (row: string)
    ensures row == LampRow(onLamps, totalLamps, lampType)
  {
    var lamps := if totalLamps == 11 then OffElevenLamps else OffFourLamps;
    var i := 0;
    while i < onLamps
      invariant 0 <= i && (i <= onLamps || i == 0)
      invariant |lamps| == Max(RowWidth(totalLamps), i)
      invariant forall k :: 0 <= k < |lamps| ==>
                  lamps[k] == if k < i then LitLamp(k, totalLamps, lampType) else OffLamp
    {
      if totalLamps == 11 && (i + 1) % 3 == 0 {
        lamps := Replace(lamps, i, i + 1, [RedLamp]);
      } else {
        lamps := Replace(lamps, i, i + 1, [lampType]);
      }
      i := i + 1;
    }
    row := lamps;
  }

  /** Row 1: yellow on an even second, off on an odd one. */
  function SecondsRow(seconds: int): (r: string)
    ensures |r| == 1 && (r[0] == YellowLamp || r[0] == OffLamp)
  {
    if Rem(seconds, 2) == 0 then [YellowLamp] else [OffLamp]
  }

  /** The five rows `getBerlinTime` computes, in display order. */
  function BerlinRows(hours: int, minutes: int, seconds: int): (rows: seq<string>)
    ensures |rows| == 5
  {
    [ SecondsRow(seconds),
      LampRow(Div(hours, 5), 4, RedLamp),
      LampRow(Rem(hours, 5), 4, RedLamp),
      LampRow(Div(minutes, 5), 11, YellowLamp),
      LampRow(Rem(minutes, 5), 4, YellowLamp) ]
  }

  /** The text `getBerlinTime` returns for a time. */
  function BerlinDisplay(sep: string, t: Time): (d: string)
    ensures SecondsRow(t.seconds) <= d
    ensures var rows := BerlinRows(t.hours, t.minutes, t.seconds);
            |d| == |rows[0]| + |rows[1]| + |rows[2]| + |rows[3]| + |rows[4]| + 4 * |sep|
  {
    var rows := BerlinRows(t.hours, t.minutes, t.seconds);
    JoinFive(sep, rows);
    Join(sep, rows)
  }

  /** `getBerlinTime`: fill a five-slot array row by row, then join it with
      the line separator `sep`. */
  method GetBerlinTime(sep: string, hours: int, minutes: int, seconds: int) returns (display: string)
    ensures display == Join(sep, BerlinRows(hours, minutes, seconds))
  {
    var lines := new string[5];
    lines[0] := if Rem(seconds, 2) == 0 then [YellowLamp] else [OffLamp];
    lines[1] := ProcessLine(Div(hours, 5), 4, RedLamp);
    lines[2] := ProcessLine(Rem(hours, 5), 4, RedLamp);
    lines[3] := ProcessLine(Div(minutes, 5), 11, YellowLamp);
    lines[4] := ProcessLine(Rem(minutes, 5), 4, YellowLamp);
    assert lines[..] == BerlinRows(hours, minutes, seconds);
    display := Join(sep, lines[..]);
  }

  /** `convertTime`: validate, then render; a validation failure is returned
      as the error and no text is produced. */
  method ConvertTime(sep: string, aTime: Option<string>) returns (r: Result<string, Error>)
    ensures r.Failure? <==> ParseTime(aTime).Failure?
    ensures r.Failure? ==> r.error == ParseTime(aTime).error
    ensures r.Success? ==> r.value == BerlinDisplay(sep, ParseTime(aTime).value)
  {
    match ParseTime(aTime)
    case Failure(e) =>
      r := Failure(e);
    case Success(t) =>
      var display := GetBerlinTime(sep, t.hours, t.minutes, t.seconds);
      r := Success(display);
  }
}
