# Berlin clock converter, modelled in Dafny

`TimeConverterImpl.convertTime` turns a time written `HH:MM:SS` into the
lamps of a Berlin clock. The output is five rows joined by the line separator:

1. one lamp, yellow (`Y`) on an even second and off (`O`) on an odd one;
2. four red (`R`) lamps, one for each five hours;
3. four red lamps, one for each remaining hour;
4. eleven lamps, one for each five minutes. The lit ones are yellow, but
   the 3rd, 6th and 9th are red to mark the quarters;
5. four yellow lamps, one for each remaining minute.

Before rendering, `convertTime` validates the input. It rejects `null`.
It then needs exactly three `:`-separated fields, each a Java `int`. Last come
the range checks, in this order: hours, minutes, seconds. The hours
check is kept exactly as written: out-of-range hours are rejected only when
the minute and the second are both non-zero. So `24:00:00`, `100:00:00` and `-3:00:00`
are all accepted (`SignedHoursUncheckedAtZero`, `HoursUncheckedAtZero`).

Files:

- `wrappers.dfy` holds `Option` (a Java reference that may be `null`) and
  `Result` (a value, or the `Error` kind of the thrown `IllegalArgumentException`,
  whose message is `Error.Message()`).
- `java_lang.dfy` (module `JavaLang`) models the Java platform behaviour the
  converter depends on:
  - the `int` range;
  - `/` and `%`, which truncate toward zero (Dafny's own operators are
    Euclidean);
  - `Integer.parseInt` (and `Integer.toString`, which the converter does not
    call; the lemmas use it to write a time as text);
  - `String.split(":")`, which drops trailing empty fields and returns the
    whole string when there is no colon;
  - `String.join`;
  - `StringBuffer.replace`, which appends when `start` equals the length.
- `berlin_clock.dfy` (module `BerlinClock`) is the converter:
  - the error kinds and their messages;
  - `ParseTime`, the guard chain of `convertTime`;
  - `ProcessLine`, a method whose loop fills the lamp buffer one `replace` at
    a time, proved equal to the cell-by-cell definition `LampRow`;
  - `GetBerlinTime`, a method that fills a five-slot array and joins it,
    proved equal to `Join(sep, BerlinRows(...))`;
  - `ConvertTime`, which validates and then renders.
- `berlin_clock_properties.dfy` (module `BerlinClockProperties`) holds what
  the converter promises:
  - the order of the validation checks, and a closed form of the inputs it
    accepts;
  - the shape and colours of each row;
  - that a display can be read back with `Decode`, which splits it, counts
    the lit lamps and recovers the hours, the minutes and the parity of the
    seconds;
  - worked examples.

The functions `CheckRanges`, `RowWidth`, `LitLamp`, `LampRow`, `SecondsRow`,
`BerlinRows` and `BerlinDisplay` define what the converter computes. Each has
its own row in the table below, which also names the lemmas that state its
meaning.

Two details of the code matter for negative or large hours:

- **Truncating division.** Java computes `-3 / 5 == 0` and `-3 % 5 == -3`, so
  `-3:00:00` lights no hour lamp and reads as hour 0 (`NegativeHoursReadAsZero`).
- **A row that grows.** When a row has more lit lamps than cells, `replace` at
  the end of the buffer appends. The row then grows instead of failing
  (`LampRowGrows`). For example, `100:00:00` gives a five-hour row of 20 red lamps.

The code checks hours first, then minutes, then seconds (`RangeCheckOrder`,
`HoursCheckedFirst`).

## Model

| member | source | states |
|---|---|---|
| `JavaLang.Div` | src/main/java/com/ubs/opsit/interviews/impl/TimeConverterImpl.java:88-91 | Java's `/` rounds toward zero: `abs(q)·b <= abs(a) < abs(q)·b + b`, and `q` has the sign of `a` |
| `JavaLang.Rem` | src/main/java/com/ubs/opsit/interviews/impl/TimeConverterImpl.java:89-91 | Java's `%`: `Div(a,b)·b + r == a`, with `r` in `0..b-1` for `a >= 0` and in `-(b-1)..0` for `a < 0` |
| `JavaLang.DivRemNonNegative` | src/main/java/com/ubs/opsit/interviews/impl/TimeConverterImpl.java:88-91 | on a non-negative dividend, Java's `/` and `%` agree with Dafny's |
| `JavaLang.ParseInt` | src/main/java/com/ubs/opsit/interviews/impl/TimeConverterImpl.java:52-57 | `Integer.parseInt` returns only values in the `int` range; `None` is the `NumberFormatException` |
| `JavaLang.ParseIntSyntax` | src/main/java/com/ubs/opsit/interviews/impl/TimeConverterImpl.java:52-57 | what `Integer.parseInt` accepts is an optional `-` or `+` followed by one or more digits and nothing else, and its value is the signed value of those digits |
| `JavaLang.ParseIntSignedDigits` | src/main/java/com/ubs/opsit/interviews/impl/TimeConverterImpl.java:52-57 | the converse: an optional `-` or `+` followed by one or more digits is accepted with its signed value when that value is in the `int` range, and rejected when it is not |
| `JavaLang.ParseIntToString` | src/main/java/com/ubs/opsit/interviews/impl/TimeConverterImpl.java:52-54 | round trip: `ParseInt(IntToString(n)) == Some(n)` for every `int` `n` |
| `JavaLang.Fields` | src/main/java/com/ubs/opsit/interviews/impl/TimeConverterImpl.java:42 | the fields between separators: at least one, and none contains the separator |
| `JavaLang.DropTrailingEmpty` | src/main/java/com/ubs/opsit/interviews/impl/TimeConverterImpl.java:42 | the result is a prefix that does not end in an empty field, and only empty fields were removed |
| `JavaLang.Split` | src/main/java/com/ubs/opsit/interviews/impl/TimeConverterImpl.java:42 | `split(":")`: the whole string when there is no colon; otherwise the fields with exactly the trailing empty ones removed (a prefix of the fields, not ending in an empty field, and every field after it empty) |
| `JavaLang.JoinFields` | src/main/java/com/ubs/opsit/interviews/impl/TimeConverterImpl.java:42 | round trip: joining the fields of `s` with the separator gives back `s` |
| `JavaLang.FieldsJoin` | src/main/java/com/ubs/opsit/interviews/impl/TimeConverterImpl.java:93 | round trip: splitting a `String.join` of separator-free parts gives back the parts |
| `JavaLang.Join` | src/main/java/com/ubs/opsit/interviews/impl/TimeConverterImpl.java:93 | `String.join`: the first part begins the result; with `JoinFive` and `FieldsJoin`, the parts in order, `sep` between neighbours and nothing at either end |
| `JavaLang.JoinFive` | src/main/java/com/ubs/opsit/interviews/impl/TimeConverterImpl.java:93 | `String.join` of the five rows is row 0, `sep`, row 1, `sep`, ... row 4, with no separator at either end |
| `JavaLang.Replace` | src/main/java/com/ubs/opsit/interviews/impl/TimeConverterImpl.java:110-112 | `StringBuffer.replace(start, end, str)`: keeps the prefix, inserts `str` and keeps the tail after `end`; appends when `start` is the length |
| `BerlinClock.CheckFields` | src/main/java/com/ubs/opsit/interviews/impl/TimeConverterImpl.java:44-64 | anything but three fields fails with `InvalidTime`; an accepted time has `int` fields with minutes and seconds in 0..59 |
| `BerlinClock.ParseTime` | src/main/java/com/ubs/opsit/interviews/impl/TimeConverterImpl.java:38-40 | `null` fails with `BlankTime` |
| `BerlinClock.RowWidth` | src/main/java/com/ubs/opsit/interviews/impl/TimeConverterImpl.java:106 | the width of a row is the length of the all-off buffer `processLine` starts from: 11 for the eleven-lamp row, 4 otherwise |
| `BerlinClock.LitLamp` | src/main/java/com/ubs/opsit/interviews/impl/TimeConverterImpl.java:109-113 | a lit lamp is red or the row's colour, and always the row's colour outside the eleven-lamp row (`QuarterMarkers` says which lamps are red) |
| `BerlinClock.LampRow` | src/main/java/com/ubs/opsit/interviews/impl/TimeConverterImpl.java:105-117 | a row is at least as long as its buffer and as the number of lit lamps, and every cell from `onLamps` on is off (`LampRowWithinBuffer`, `LampRowGrows` and `LitCountLampRow` state the rest) |
| `BerlinClock.SecondsRow` | src/main/java/com/ubs/opsit/interviews/impl/TimeConverterImpl.java:87 | row 1 is a single lamp, yellow or off (`SecondsRowParity` says which) |
| `BerlinClock.BerlinRows` | src/main/java/com/ubs/opsit/interviews/impl/TimeConverterImpl.java:86-91 | `getBerlinTime` computes five rows (their lengths and colours are stated by `DisplayShape`, the time they show by `RowsCountTime`) |
| `BerlinClock.BerlinDisplay` | src/main/java/com/ubs/opsit/interviews/impl/TimeConverterImpl.java:85-93 | the display starts with the seconds row, and its length is the rows' lengths plus four separators (`DisplayShape` and `DecodeDisplay` state the rest) |
| `BerlinClock.ProcessLine` | src/main/java/com/ubs/opsit/interviews/impl/TimeConverterImpl.java:105-117 | the replace loop over the all-off buffer yields exactly `LampRow`: the first `onLamps` cells lit, every third red in the 11-cell row, the rest off, grown to `onLamps` cells if needed |
| `BerlinClock.GetBerlinTime` | src/main/java/com/ubs/opsit/interviews/impl/TimeConverterImpl.java:85-94 | filling the five-slot array and joining it yields the five rows (seconds parity, hours/5, hours%5, minutes/5, minutes%5) joined by `sep` |
| `BerlinClock.ConvertTime` | src/main/java/com/ubs/opsit/interviews/impl/TimeConverterImpl.java:38-67 | fails exactly when validation fails, with the same error; otherwise returns the display of the parsed time |
| `BerlinClock.Error.Message` | src/main/java/com/ubs/opsit/interviews/impl/TimeConverterImpl.java:16-21 | each error kind carries its own non-empty exception message |
| `BerlinClock.CheckRanges` | src/main/java/com/ubs/opsit/interviews/impl/TimeConverterImpl.java:59-64 | the range checks: when they pass, minutes and seconds are in 0..59; a failure is one of the three range errors (which one, and the hours quirk, is stated by `RangeCheckOrder` and `AcceptedTimes`) |
| `BerlinClockProperties.MessagesDistinct` | src/main/java/com/ubs/opsit/interviews/impl/TimeConverterImpl.java:16-21 | two error kinds have the same message exactly when they are the same kind |
| `BerlinClockProperties.RangeCheckOrder` | src/main/java/com/ubs/opsit/interviews/impl/TimeConverterImpl.java:59-64 | hours error iff hours are out of 0..23 and minutes and seconds are both non-zero; otherwise minutes error iff minutes are out of 0..59; otherwise seconds error iff seconds are out of 0..59 |
| `BerlinClockProperties.AcceptedTimes` | src/main/java/com/ubs/opsit/interviews/impl/TimeConverterImpl.java:59-64 | the range checks pass iff minutes and seconds are in 0..59 and either hours are in 0..23 or minute or second is zero |
| `BerlinClockProperties.NonNumericField` | src/main/java/com/ubs/opsit/interviews/impl/TimeConverterImpl.java:51-57 | among three fields, any one that is not an `int` gives `NumericTime`, before any range check |
| `BerlinClockProperties.NonNumericFields` | src/main/java/com/ubs/opsit/interviews/impl/TimeConverterImpl.java:51-57 | the same on the field list: three fields, one not an `int`, give `NumericTime` |
| `BerlinClockProperties.AcceptedFields` | src/main/java/com/ubs/opsit/interviews/impl/TimeConverterImpl.java:42-64 | an accepted input has three fields; hours, minutes and seconds are their parses in order, and they pass the range checks |
| `BerlinClockProperties.SplitThree` | src/main/java/com/ubs/opsit/interviews/impl/TimeConverterImpl.java:42-45 | `h:m:s` with colon-free fields and a non-empty last field splits into exactly `[h, m, s]` |
| `BerlinClockProperties.ThreeFieldInput` | src/main/java/com/ubs/opsit/interviews/impl/TimeConverterImpl.java:42-64 | input that splits into three fields which all parse is decided by the range checks alone |
| `BerlinClockProperties.WellFormedInput` | src/main/java/com/ubs/opsit/interviews/impl/TimeConverterImpl.java:42-64 | for any three `int`s written by `Integer.toString`, only the range checks decide the outcome |
| `BerlinClockProperties.NoColonInInt` | src/main/java/com/ubs/opsit/interviews/impl/TimeConverterImpl.java:42 | the text of an `int` contains no colon |
| `BerlinClockProperties.ParseTwoDigits` | src/main/java/com/ubs/opsit/interviews/impl/TimeConverterImpl.java:52-54 | `parseInt` of two digits is their decimal value, at most 99 |
| `BerlinClockProperties.TwoDigitInput` | src/main/java/com/ubs/opsit/interviews/impl/TimeConverterImpl.java:42-64 | for `HH:MM:SS` with two-digit fields, only the range checks on the three decimal values decide the outcome |
| `BerlinClockProperties.HoursUncheckedAtZero` | src/main/java/com/ubs/opsit/interviews/impl/TimeConverterImpl.java:59-64 | with a zero minute or second and minutes and seconds in 0..59, any `int` hours are accepted, e.g. `24:0:0` and `-3:0:0` |
| `BerlinClockProperties.SignedHoursUncheckedAtZero` | src/main/java/com/ubs/opsit/interviews/impl/TimeConverterImpl.java:52-64 | with two-digit minutes and seconds in 0..59 of which one is zero, hours written as an optional sign and any number of digits are accepted with their signed value when it is an `int`, e.g. `24:00:00`, `100:00:00` and `-3:00:00` |
| `BerlinClockProperties.HoursCheckedFirst` | src/main/java/com/ubs/opsit/interviews/impl/TimeConverterImpl.java:59-60 | hours out of 0..23 with non-zero minute and second fail on the hours, whatever the minutes and seconds, e.g. `24:65:10` |
| `BerlinClockProperties.MinutesCheckedBeforeSeconds` | src/main/java/com/ubs/opsit/interviews/impl/TimeConverterImpl.java:61-62 | with hours in 0..23, minutes out of 0..59 fail on the minutes, whatever the seconds, e.g. `10:65:65` |
| `BerlinClockProperties.SecondsChecked` | src/main/java/com/ubs/opsit/interviews/impl/TimeConverterImpl.java:63-64 | with hours in 0..23 and minutes in 0..59, seconds out of 0..59 fail on the seconds, e.g. `10:10:65` |
| `BerlinClockProperties.TwoFieldsInvalid` | src/main/java/com/ubs/opsit/interviews/impl/TimeConverterImpl.java:42-45 | `h:m` with colon-free fields (either may be empty) fails as an invalid time |
| `BerlinClockProperties.TrailingColonInvalid` | src/main/java/com/ubs/opsit/interviews/impl/TimeConverterImpl.java:42-45 | `h:m:` (colon-free, either may be empty) has at most two fields after `split`, so it fails as an invalid time |
| `BerlinClockProperties.TrailingColonIgnored` | src/main/java/com/ubs/opsit/interviews/impl/TimeConverterImpl.java:42-45 | `h:m:s:` splits into the three fields `[h, m, s]`: a trailing colon is dropped |
| `BerlinClockProperties.EmptyInvalid` | src/main/java/com/ubs/opsit/interviews/impl/TimeConverterImpl.java:42-45 | `""` splits into one field and fails as an invalid time |
| `BerlinClockProperties.NonDigitField` | src/main/java/com/ubs/opsit/interviews/impl/TimeConverterImpl.java:51-57 | `h:m:s` where a field holds a character that is neither a digit nor a sign fails as non-numeric, e.g. `ab:cd:ef` |
| `BerlinClockProperties.LampRowWithinBuffer` | src/main/java/com/ubs/opsit/interviews/impl/TimeConverterImpl.java:105-117 | for `0 <= onLamps <= totalLamps` with 4 or 11 lamps: the row has `totalLamps` cells, a cell is lit iff its index is below `onLamps`, and in a 4-cell row every lit cell is `lampType` |
| `BerlinClockProperties.QuarterMarkers` | src/main/java/com/ubs/opsit/interviews/impl/TimeConverterImpl.java:109-113 | in the 11-cell row a lit cell at 1-based position 3, 6 or 9 is `R`; every other lit cell is `lampType` |
| `BerlinClockProperties.LampRowGrows` | src/main/java/com/ubs/opsit/interviews/impl/TimeConverterImpl.java:106-112 | more lit lamps than the buffer holds give a row of `onLamps` cells |
| `BerlinClockProperties.LitCount` | src/main/java/com/ubs/opsit/interviews/impl/TimeConverterImpl.java:70-78 | the number of lit lamps in a row is at most its length |
| `BerlinClockProperties.LitCountPrefix` | src/main/java/com/ubs/opsit/interviews/impl/TimeConverterImpl.java:107-114 | a row lit on its first `k` cells and off after them has `k` lit lamps |
| `BerlinClockProperties.LitCountLampRow` | src/main/java/com/ubs/opsit/interviews/impl/TimeConverterImpl.java:105-117 | a row asked to light `onLamps` lamps shows `max(0, onLamps)` lit lamps |
| `BerlinClockProperties.SecondsRowParity` | src/main/java/com/ubs/opsit/interviews/impl/TimeConverterImpl.java:87 | row 1 is `"Y"` iff the second is even, and `"O"` iff it is odd |
| `BerlinClockProperties.LampRowLamps` | src/main/java/com/ubs/opsit/interviews/impl/TimeConverterImpl.java:105-117 | a row drawn in a lamp colour holds only `Y`, `R` and `O` |
| `BerlinClockProperties.DisplayShape` | src/main/java/com/ubs/opsit/interviews/impl/TimeConverterImpl.java:85-93 | for hours in 0..23 and minutes and seconds in 0..59: five rows of lengths 1, 4, 4, 11, 4, every cell `Y`, `R` or `O`, joined in order by `sep` |
| `BerlinClockProperties.RowsCountTime` | src/main/java/com/ubs/opsit/interviews/impl/TimeConverterImpl.java:70-91 | hours = 5·(lit in row 2) + (lit in row 3), and minutes = 5·(lit in row 4) + (lit in row 5), for non-negative values |
| `BerlinClockProperties.DecodeRows` | src/main/java/com/ubs/opsit/interviews/impl/TimeConverterImpl.java:85-93 | reading any display back gives the lit counts `5·max(0, h/5) + max(0, h%5)` (Java division), the same for minutes, and the parity of the seconds |
| `BerlinClockProperties.DecodeDisplay` | src/main/java/com/ubs/opsit/interviews/impl/TimeConverterImpl.java:70-93 | round trip: every accepted time with non-negative hours reads back as its hours, minutes and seconds parity |
| `BerlinClockProperties.NegativeHoursReadAsZero` | src/main/java/com/ubs/opsit/interviews/impl/TimeConverterImpl.java:59-91 | an accepted time with negative hours has a zero minute or second, and its display lights no hour lamp, so it reads as hour 0 with its own minutes |
| `BerlinClockProperties.RowText` | src/main/java/com/ubs/opsit/interviews/impl/TimeConverterImpl.java:105-117 | a row given cell by cell as lit-then-off text is the `processLine` row |
| `BerlinClockProperties.MidnightRows` | src/main/java/com/ubs/opsit/interviews/impl/TimeConverterImpl.java:85-117 | 00:00:00 gives the rows `Y`, `OOOO`, `OOOO`, `OOOOOOOOOOO`, `OOOO` |
| `BerlinClockProperties.AfternoonRows` | src/main/java/com/ubs/opsit/interviews/impl/TimeConverterImpl.java:85-117 | 13:17:01 gives the rows `O`, `RROO`, `RRRO`, `YYROOOOOOOO`, `YYOO` |
| `BerlinClockProperties.QuarterPastRows` | src/main/java/com/ubs/opsit/interviews/impl/TimeConverterImpl.java:85-117 | 00:29:00 gives the rows `Y`, `OOOO`, `OOOO`, `YYRYYOOOOOO`, `YYYY`: the third five-minute lamp is red |
| `BerlinClockProperties.LastSecondRows` | src/main/java/com/ubs/opsit/interviews/impl/TimeConverterImpl.java:85-117 | 23:59:59 gives the rows `O`, `RRRR`, `RRRO`, `YYRYYRYYRYY`, `YYYY` |

## Left out

- The line separator comes from `System.getProperty("line.separator")` at
  line 22. In the model it is a parameter, `sep`.
- `Decode` and the round-trip lemmas assume a one-character separator
  that is not a lamp letter, such as `"\n"`. They do not cover a
  two-character separator like `"\r\n"`.
- `JavaLang.ParseInt` accepts ASCII digits only. Java's `Character.digit`
  also accepts other Unicode decimal digits.
- `JavaLang.Split` models `split` only for a one-character separator that
  is not a regular-expression metacharacter, which is the only way the
  converter calls it. General regular expressions are out.
- In Java the lamp colour is a `String`. It is always the one-character
  `"R"` or `"Y"`, so the model uses a `char`.
- The `StringBuffer` of `processLine` is local and never shared. It is
  modelled as a `seq<char>` that each `replace` reassigns, not as a heap
  object.
- Exceptions are `Failure` values of `Result`, not `IllegalArgumentException`
  objects. A `StringIndexOutOfBoundsException` from `replace` cannot happen:
  `Replace`'s precondition is proved at every call.
- The `TimeConverter` interface is not part of this model. Only the
  `convertTime` signature is known.
- Memory is unbounded in the model. In Java a huge accepted hour value, such
  as `2147483647:00:00`, builds a five-hour row of about 429 million lamps,
  which may exhaust the heap.
- No `int` overflow can happen in these lines: divisions shrink their
  operands, and the loop counter stays below `onLamps`. So the model uses
  unbounded integers, and only the parsed values are checked against the
  `int` range.
