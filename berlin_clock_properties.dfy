/** What the Berlin clock converter promises: the shape of the display, the
    colours of its lamps, the order of the validation checks, and that the
    hours and minutes can be read back from the lit lamps. */
module BerlinClockProperties {
  import opened Wrappers
  import opened JavaLang
  import opened BerlinClock

  /* ---------------------------------------------------------------------- */
  /* Validation                                                             */
  /* ---------------------------------------------------------------------- */

  /** Each error kind is told apart by its message. */
  lemma MessagesDistinct(e1: Error, e2: Error)
    ensures e1.Message() == e2.Message() <==> e1 == e2
  {
  }

  /** The range checks decide by precedence: hours first (and only when
      neither minutes nor seconds is zero), then minutes, then seconds. */
  lemma RangeCheckOrder(t: Time)
    ensures CheckRanges(t) == Some(HoursOutOfBounds) <==>
              (t.hours < 0 || t.hours > 23) && t.minutes != 0 && t.seconds != 0
    ensures CheckRanges(t) == Some(MinutesOutOfBounds) <==>
              !((t.hours < 0 || t.hours > 23) && t.minutes != 0 && t.seconds != 0)
              && (t.minutes < 0 || t.minutes > 59)
    ensures CheckRanges(t) == Some(SecondsOutOfBounds) <==>
              !((t.hours < 0 || t.hours > 23) && t.minutes != 0 && t.seconds != 0)
              && 0 <= t.minutes <= 59 && (t.seconds < 0 || t.seconds > 59)
  {
  }

  /** A time passes the range checks exactly when minutes and seconds are in
      0..59 and either the hours are in 0..23 or a minute or second is zero. */
  lemma AcceptedTimes(t: Time)
    ensures CheckRanges(t) == None <==>
              0 <= t.minutes <= 59 && 0 <= t.seconds <= 59
              && (0 <= t.hours <= 23 || t.minutes == 0 || t.seconds == 0)
  {
  }

  /** Three fields of which one is not an `int` fail as non-numeric, before
      any range check. */
  lemma NonNumericField(s: string, k: int)
    requires |Split(s, ':')| == 3 && 0 <= k < 3
    requires ParseInt(Split(s, ':')[k]).None?
    ensures ParseTime(Some(s)) == Failure(NumericTime)
  {
    NonNumericFields(Split(s, ':'), k);
  }

  lemma NonNumericFields(times: seq<string>, k: int)
    requires |times| == 3 && 0 <= k < 3
    requires ParseInt(times[k]).None?
    ensures CheckFields(times) == Failure(NumericTime)
  {
    assert ParseInt(times[0]).None? || ParseInt(times[1]).None? || ParseInt(times[2]).None?;
  }

  /** An accepted time is the parse of the three fields, in order. */
  lemma AcceptedFields(s: string)
    requires ParseTime(Some(s)).Success?
    ensures |Split(s, ':')| == 3
    ensures ParseInt(Split(s, ':')[0]) == Some(ParseTime(Some(s)).value.hours)
    ensures ParseInt(Split(s, ':')[1]) == Some(ParseTime(Some(s)).value.minutes)
    ensures ParseInt(Split(s, ':')[2]) == Some(ParseTime(Some(s)).value.seconds)
    ensures CheckRanges(ParseTime(Some(s)).value) == None
  {
  }

  /** Three colon-free fields joined by colons split back into those three
      fields, as long as the last is not empty. */
  lemma SplitThree(h: string, m: string, s: string)
    requires ':' !in h && ':' !in m && ':' !in s && s != []
    ensures Split(h + ":" + m + ":" + s, ':') == [h, m, s]
  {
    var text := h + ":" + m + ":" + s;
    assert text == h + [':'] + (m + [':'] + s);
    FieldsCons(h, ':', m + [':'] + s);
    FieldsCons(m, ':', s);
    FieldsWithout(s, ':');
    assert ':' in text by { assert text[|h|] == ':'; }
  }

  /** Every `H:M:S` written with `Integer.toString` reaches the range checks,
      and they alone decide the outcome. */
  lemma WellFormedInput(hours: int, minutes: int, seconds: int)
    requires IsInt(hours) && IsInt(minutes) && IsInt(seconds)
    ensures var t := Time(hours, minutes, seconds);
            ParseTime(Some(TimeText(t))) == if CheckRanges(t).Some? then Failure(CheckRanges(t).value) else Success(t)
  {
    NoColonInInt(hours);
    NoColonInInt(minutes);
    NoColonInInt(seconds);
    SplitThree(IntToString(hours), IntToString(minutes), IntToString(seconds));
    ParseIntToString(hours);
    ParseIntToString(minutes);
    ParseIntToString(seconds);
    ThreeFieldInput(IntToString(hours) + ":" + IntToString(minutes) + ":" + IntToString(seconds),
                    IntToString(hours), IntToString(minutes), IntToString(seconds), Time(hours, minutes, seconds));
  }

  lemma NoColonInInt(n: int)
    ensures ':' !in IntToString(n)
  {
    var digits := NatToString(Abs(n));
    forall k | 0 <= k < |digits|
      ensures digits[k] != ':'
    {
      assert IsDigit(digits[k]);
    }
    if n < 0 {
      assert IntToString(n) == "-" + digits;
    }
  }

  /** Three fields that parse reach the range checks, which alone decide. */
  lemma ThreeFieldInput(text: string, h: string, m: string, s: string, t: Time)
    requires Split(text, ':') == [h, m, s]
    requires ParseInt(h) == Some(t.hours) && ParseInt(m) == Some(t.minutes) && ParseInt(s) == Some(t.seconds)
    ensures ParseTime(Some(text)) == if CheckRanges(t).Some? then Failure(CheckRanges(t).value) else Success(t)
  {
  }

  /** The value of two decimal digits. */
  function TwoDigits(s: string): nat
    requires |s| == 2 && AllDigits(s)
  {
    10 * DigitValue(s[0]) + DigitValue(s[1])
  }

  /** `Integer.parseInt` of two decimal digits is their decimal value, from
      "00" to "99". */
  lemma ParseTwoDigits(s: string)
    requires |s| == 2 && AllDigits(s)
    ensures ParseInt(s) == Some(TwoDigits(s))
    ensures TwoDigits(s) <= 99
  {
    assert s[..1][..0] == [];
    assert DigitsValue(s[..1]) == DigitValue(s[0]);
  }

  /** Validation of `HH:MM:SS` with two-digit fields: the range checks alone
      decide. */
  lemma TwoDigitInput(h: string, m: string, s: string)
    requires |h| == 2 && |m| == 2 && |s| == 2 && AllDigits(h) && AllDigits(m) && AllDigits(s)
    ensures var t := Time(TwoDigits(h), TwoDigits(m), TwoDigits(s));
            ParseTime(Some(h + ":" + m + ":" + s)) ==
              if CheckRanges(t).Some? then Failure(CheckRanges(t).value) else Success(t)
  {
    var t := Time(TwoDigits(h), TwoDigits(m), TwoDigits(s));
    ParseTwoDigits(h);
    ParseTwoDigits(m);
    ParseTwoDigits(s);
    assert ':' !in h && ':' !in m && ':' !in s;
    SplitThree(h, m, s);
    ThreeFieldInput(h + ":" + m + ":" + s, h, m, s, t);
  }

  /** The text `Integer.toString` writes for a time. */
  function TimeText(t: Time): string {
    IntToString(t.hours) + ":" + IntToString(t.minutes) + ":" + IntToString(t.seconds)
  }

  /** With a zero minute or a zero second the hours are not checked at all:
      "24:0:0", "99:0:30" and "-3:0:0" are all accepted times. */
  lemma HoursUncheckedAtZero(t: Time)
    requires IsInt(t.hours) && 0 <= t.minutes <= 59 && 0 <= t.seconds <= 59
    requires t.minutes == 0 || t.seconds == 0
    ensures ParseTime(Some(TimeText(t))) == Success(t)
  {
    WellFormedInput(t.hours, t.minutes, t.seconds);
  }

  /** The same on two-digit minutes and seconds, with hours of any length
      and an optional sign: "24:00:00", "100:00:00" and "-3:00:00" are
      accepted. */
  lemma SignedHoursUncheckedAtZero(sign: string, hd: string, m: string, s: string)
    requires sign == "" || sign == "-" || sign == "+"
    requires hd != [] && AllDigits(hd) && IsInt(SignedValue(sign, hd))
    requires |m| == 2 && |s| == 2 && AllDigits(m) && AllDigits(s)
    requires TwoDigits(m) <= 59 && TwoDigits(s) <= 59 && (TwoDigits(m) == 0 || TwoDigits(s) == 0)
    ensures ParseTime(Some(sign + hd + ":" + m + ":" + s)) ==
              Success(Time(SignedValue(sign, hd), TwoDigits(m), TwoDigits(s)))
  {
    var h := sign + hd;
    ParseIntSignedDigits(sign, hd);
    ParseTwoDigits(m);
    ParseTwoDigits(s);
    assert ':' !in hd && ':' !in m && ':' !in s;
    assert ':' !in h;
    SplitThree(h, m, s);
    ThreeFieldInput(h + ":" + m + ":" + s, h, m, s, Time(SignedValue(sign, hd), TwoDigits(m), TwoDigits(s)));
  }

  /** Hours outside 0..23 with a non-zero minute and second fail on the
      hours, whatever the minutes and seconds are ("24:65:10"). */
  lemma HoursCheckedFirst(t: Time)
    requires IsInt(t.hours) && IsInt(t.minutes) && IsInt(t.seconds)
    requires (t.hours < 0 || t.hours > 23) && t.minutes != 0 && t.seconds != 0
    ensures ParseTime(Some(TimeText(t))) == Failure(HoursOutOfBounds)
  {
    WellFormedInput(t.hours, t.minutes, t.seconds);
  }

  /** Minutes outside 0..59 fail on the minutes, whatever the seconds are
      ("10:65:65"), unless the hours failed first. */
  lemma MinutesCheckedBeforeSeconds(t: Time)
    requires IsInt(t.hours) && IsInt(t.minutes) && IsInt(t.seconds)
    requires 0 <= t.hours <= 23 && (t.minutes < 0 || t.minutes > 59)
    ensures ParseTime(Some(TimeText(t))) == Failure(MinutesOutOfBounds)
  {
    WellFormedInput(t.hours, t.minutes, t.seconds);
  }

  /** Seconds outside 0..59 fail on the seconds once the hours and minutes
      pass ("10:10:65"). */
  lemma SecondsChecked(t: Time)
    requires IsInt(t.hours) && IsInt(t.seconds)
    requires 0 <= t.hours <= 23 && 0 <= t.minutes <= 59 && (t.seconds < 0 || t.seconds > 59)
    ensures ParseTime(Some(TimeText(t))) == Failure(SecondsOutOfBounds)
  {
    WellFormedInput(t.hours, t.minutes, t.seconds);
  }

  /** Two fields are not a time ("12:30"). */
  lemma TwoFieldsInvalid(h: string, m: string)
    requires ':' !in h && ':' !in m
    ensures ParseTime(Some(h + ":" + m)) == Failure(InvalidTime)
  {
    var text := h + ":" + m;
    assert text == h + [':'] + m;
    FieldsCons(h, ':', m);
    FieldsWithout(m, ':');
    assert text[|h|] == ':';
  }

  /** `split` drops the empty field after a trailing colon, so "1:2:" has
      only two fields ("1::" only one) ... */
  lemma TrailingColonInvalid(h: string, m: string)
    requires ':' !in h && ':' !in m
    ensures ParseTime(Some(h + ":" + m + ":")) == Failure(InvalidTime)
  {
    var text := h + ":" + m + ":";
    assert text == h + [':'] + (m + [':'] + []);
    FieldsCons(h, ':', m + [':'] + []);
    FieldsCons(m, ':', []);
    assert text[|h|] == ':';
  }

  /** ... and "12:30:00:" is read as the three fields before the colon. */
  lemma TrailingColonIgnored(h: string, m: string, s: string)
    requires ':' !in h && ':' !in m && ':' !in s && s != []
    ensures Split(h + ":" + m + ":" + s + ":", ':') == [h, m, s]
  {
    var text := h + ":" + m + ":" + s + ":";
    assert text == h + [':'] + (m + [':'] + (s + [':'] + []));
    FieldsCons(h, ':', m + [':'] + (s + [':'] + []));
    FieldsCons(m, ':', s + [':'] + []);
    FieldsCons(s, ':', []);
    var fs := Fields(text, ':');
    assert fs == [h, m, s, []];
    assert DropTrailingEmpty(fs) == DropTrailingEmpty(fs[..3]) == [h, m, s];
    assert text[|h|] == ':';
  }

  /** The empty string splits into one (empty) field. */
  lemma EmptyInvalid()
    ensures ParseTime(Some("")) == Failure(InvalidTime)
  {
  }

  /** A field holding anything but a sign or a digit ("ab:cd:ef") makes the
      time non-numeric. */
  lemma NonDigitField(h: string, m: string, s: string, k: int, i: int)
    requires ':' !in h && ':' !in m && ':' !in s && s != []
    requires 0 <= k < 3 && 0 <= i < |[h, m, s][k]|
    requires !IsDigit([h, m, s][k][i]) && [h, m, s][k][i] != '-' && [h, m, s][k][i] != '+'
    ensures ParseTime(Some(h + ":" + m + ":" + s)) == Failure(NumericTime)
  {
    SplitThree(h, m, s);
    if ParseInt([h, m, s][k]).Some? {
      ParseIntSyntax([h, m, s][k]);
    }
  }

  /* ---------------------------------------------------------------------- */
  /* Lamp rows                                                              */
  /* ---------------------------------------------------------------------- */

  /** Within the buffer, `processLine` leaves a row of exactly `totalLamps`
      cells whose first `onLamps` are lit and whose others are off; in a
      four-lamp row every lit cell has the row's colour. */
  lemma LampRowWithinBuffer(onLamps: int, totalLamps: int, lampType: char)
    requires totalLamps == 4 || totalLamps == 11
    requires 0 <= onLamps <= totalLamps
    requires lampType != OffLamp
    ensures var row := LampRow(onLamps, totalLamps, lampType);
            && |row| == totalLamps
            && (forall k :: 0 <= k < |row| ==> (row[k] != OffLamp <==> k < onLamps))
            && (totalLamps == 4 ==> forall k :: 0 <= k < onLamps ==> row[k] == lampType)
  {
  }

  /** In the eleven-lamp row the lit cells at 1-based positions 3, 6 and 9
      are red and every other lit cell has the row's colour. */
  lemma QuarterMarkers(onLamps: int, lampType: char)
    ensures var row := LampRow(onLamps, 11, lampType);
            forall k :: 0 <= k < |row| && k < onLamps ==>
              row[k] == if (k + 1) % 3 == 0 then RedLamp else lampType
  {
  }

  /** More lit lamps than the buffer holds make the row longer:
      `StringBuffer.replace` at the end of the buffer appends. */
  lemma LampRowGrows(onLamps: int, totalLamps: int, lampType: char)
    requires onLamps > RowWidth(totalLamps)
    ensures |LampRow(onLamps, totalLamps, lampType)| == onLamps
  {
  }

  /** The number of lit (not off) cells of a row. */
  function LitCount(row: string): (n: nat)
    ensures n <= |row|
  {
    if row == [] then 0 else (if row[0] != OffLamp then 1 else 0) + LitCount(row[1..])
  }

  /** A row lit on a prefix of `k` cells and off after it has `k` lit cells. */
  lemma {:induction false} LitCountPrefix(row: string, k: int)
    requires 0 <= k <= |row|
    requires forall i :: 0 <= i < k ==> row[i] != OffLamp
    requires forall i :: k <= i < |row| ==> row[i] == OffLamp
    ensures LitCount(row) == k
    decreases |row|
  {
    if row != [] {
      LitCountPrefix(row[1..], if k > 0 then k - 1 else 0);
    }
  }

  /** A row shows as many lit lamps as it was asked to light (none for a
      negative count). */
  lemma LitCountLampRow(onLamps: int, totalLamps: int, lampType: char)
    requires lampType != OffLamp
    ensures LitCount(LampRow(onLamps, totalLamps, lampType)) == Max(0, onLamps)
  {
    LitCountPrefix(LampRow(onLamps, totalLamps, lampType), Max(0, onLamps));
  }

  /** Row 1 is yellow exactly on the even seconds. */
  lemma SecondsRowParity(seconds: int)
    ensures SecondsRow(seconds) == "Y" <==> seconds % 2 == 0
    ensures SecondsRow(seconds) == "O" <==> seconds % 2 != 0
  {
  }

  /* ---------------------------------------------------------------------- */
  /* The display                                                            */
  /* ---------------------------------------------------------------------- */

  predicate IsLamp(c: char) {
    c == YellowLamp || c == RedLamp || c == OffLamp
  }

  lemma LampRowLamps(onLamps: int, totalLamps: int, lampType: char)
    requires IsLamp(lampType)
    ensures forall k :: 0 <= k < |LampRow(onLamps, totalLamps, lampType)| ==>
              IsLamp(LampRow(onLamps, totalLamps, lampType)[k])
  {
  }

  /** For a time of day the display is five rows of 1, 4, 4, 11 and 4
      lamps, each yellow, red or off, joined by the separator in order. */
  lemma DisplayShape(sep: string, t: Time)
    requires 0 <= t.hours <= 23 && 0 <= t.minutes <= 59 && 0 <= t.seconds <= 59
    ensures var rows := BerlinRows(t.hours, t.minutes, t.seconds);
            && |rows[0]| == 1 && |rows[1]| == 4 && |rows[2]| == 4 && |rows[3]| == 11 && |rows[4]| == 4
            && (forall i, k :: 0 <= i < 5 && 0 <= k < |rows[i]| ==> IsLamp(rows[i][k]))
            && BerlinDisplay(sep, t) == rows[0] + sep + rows[1] + sep + rows[2] + sep + rows[3] + sep + rows[4]
  {
    var h, m, s := t.hours, t.minutes, t.seconds;
    DivRemNonNegative(h, 5);
    DivRemNonNegative(m, 5);
    var rows := BerlinRows(h, m, s);
    forall i | 0 <= i < 5
      ensures forall k :: 0 <= k < |rows[i]| ==> IsLamp(rows[i][k])
    {
      if i == 1 || i == 2 {
        LampRowLamps(if i == 1 then Div(h, 5) else Rem(h, 5), 4, RedLamp);
      } else if i == 3 || i == 4 {
        LampRowLamps(if i == 3 then Div(m, 5) else Rem(m, 5), if i == 3 then 11 else 4, YellowLamp);
      }
    }
    JoinFive(sep, rows);
  }

  /** The lit lamps give the time back: five hours per lamp of row 2 plus
      one per lamp of row 3, and likewise for the minutes in rows 4 and 5. */
  lemma RowsCountTime(hours: int, minutes: int, seconds: int)
    requires hours >= 0 && minutes >= 0
    ensures var rows := BerlinRows(hours, minutes, seconds);
            && 5 * LitCount(rows[1]) + LitCount(rows[2]) == hours
            && 5 * LitCount(rows[3]) + LitCount(rows[4]) == minutes
  {
    LitCountLampRow(Div(hours, 5), 4, RedLamp);
    LitCountLampRow(Rem(hours, 5), 4, RedLamp);
    LitCountLampRow(Div(minutes, 5), 11, YellowLamp);
    LitCountLampRow(Rem(minutes, 5), 4, YellowLamp);
  }

  /** What a reader of the display takes from it. */
  datatype Reading = Reading(hours: int, minutes: int, evenSecond: bool)

  /** Reads a display whose rows are separated by the character `sep`. */
  function Decode(display: string, sep: char): Option<Reading> {
    var rows := Fields(display, sep);
    if |rows| != 5 then None
    else Some(Reading(5 * LitCount(rows[1]) + LitCount(rows[2]),
                      5 * LitCount(rows[3]) + LitCount(rows[4]),
                      rows[0] == [YellowLamp]))
  }

  /** Reading any display back counts the lit lamps, so a negative count
      reads as zero. */
  lemma DecodeRows(t: Time, sep: char)
    requires !IsLamp(sep)
    ensures Decode(BerlinDisplay([sep], t), sep) ==
              Some(Reading(5 * Max(0, Div(t.hours, 5)) + Max(0, Rem(t.hours, 5)),
                           5 * Max(0, Div(t.minutes, 5)) + Max(0, Rem(t.minutes, 5)),
                           Rem(t.seconds, 2) == 0))
  {
    var h, m := t.hours, t.minutes;
    var rows := BerlinRows(h, m, t.seconds);
    forall i | 0 <= i < 5
      ensures sep !in rows[i]
    {
      if i == 1 || i == 2 {
        LampRowLamps(if i == 1 then Div(h, 5) else Rem(h, 5), 4, RedLamp);
      } else if i == 3 || i == 4 {
        LampRowLamps(if i == 3 then Div(m, 5) else Rem(m, 5), if i == 3 then 11 else 4, YellowLamp);
      }
    }
    FieldsJoin(rows, sep);
    LitCountLampRow(Div(h, 5), 4, RedLamp);
    LitCountLampRow(Rem(h, 5), 4, RedLamp);
    LitCountLampRow(Div(m, 5), 11, YellowLamp);
    LitCountLampRow(Rem(m, 5), 4, YellowLamp);
  }

  /** Any accepted time with non-negative hours is read back from its
      display: hours, minutes and the parity of the seconds. */
  lemma DecodeDisplay(t: Time, sep: char)
    requires CheckRanges(t) == None && t.hours >= 0
    requires !IsLamp(sep)
    ensures Decode(BerlinDisplay([sep], t), sep) == Some(Reading(t.hours, t.minutes, t.seconds % 2 == 0))
  {
    DecodeRows(t, sep);
  }

  /** Hours below zero pass validation when a minute or second is zero
      (see `HoursUncheckedAtZero`), but light no hour lamp: Java's `h / 5`
      and `h % 5` are then at most zero, so the display reads as hour 0. */
  lemma NegativeHoursReadAsZero(t: Time, sep: char)
    requires CheckRanges(t) == None && t.hours < 0
    requires !IsLamp(sep)
    ensures t.minutes == 0 || t.seconds == 0
    ensures Decode(BerlinDisplay([sep], t), sep) == Some(Reading(0, t.minutes, t.seconds % 2 == 0))
  {
    DecodeRows(t, sep);
  }

  /* ---------------------------------------------------------------------- */
  /* Worked examples                                                        */
  /* ---------------------------------------------------------------------- */

  /** A lamp row given cell by cell. */
  lemma RowText(onLamps: int, totalLamps: int, lampType: char, text: string)
    requires |text| == Max(RowWidth(totalLamps), onLamps)
    requires forall k :: 0 <= k < |text| ==>
               text[k] == if k < onLamps then LitLamp(k, totalLamps, lampType) else OffLamp
    ensures LampRow(onLamps, totalLamps, lampType) == text
  {
  }

  lemma MidnightRows()
    ensures BerlinRows(0, 0, 0) == ["Y", "OOOO", "OOOO", "OOOOOOOOOOO", "OOOO"]
  {
    RowText(0, 4, RedLamp, "OOOO");
    RowText(0, 4, YellowLamp, "OOOO");
    RowText(0, 11, YellowLamp, "OOOOOOOOOOO");
  }

  lemma AfternoonRows()
    ensures BerlinRows(13, 17, 1) == ["O", "RROO", "RRRO", "YYROOOOOOOO", "YYOO"]
  {
    RowText(2, 4, RedLamp, "RROO");
    RowText(3, 4, RedLamp, "RRRO");
    RowText(3, 11, YellowLamp, "YYROOOOOOOO");
    RowText(2, 4, YellowLamp, "YYOO");
  }

  /** At minute 29 the five-minute row lights five lamps, the third red. */
  lemma QuarterPastRows()
    ensures BerlinRows(0, 29, 0) == ["Y", "OOOO", "OOOO", "YYRYYOOOOOO", "YYYY"]
  {
    RowText(0, 4, RedLamp, "OOOO");
    RowText(5, 11, YellowLamp, "YYRYYOOOOOO");
    RowText(4, 4, YellowLamp, "YYYY");
  }

  lemma LastSecondRows()
    ensures BerlinRows(23, 59, 59) == ["O", "RRRR", "RRRO", "YYRYYRYYRYY", "YYYY"]
  {
    RowText(4, 4, RedLamp, "RRRR");
    RowText(3, 4, RedLamp, "RRRO");
    RowText(11, 11, YellowLamp, "YYRYYRYYRYY");
    RowText(4, 4, YellowLamp, "YYYY");
  }
}
