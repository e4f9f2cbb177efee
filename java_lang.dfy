/** The parts of the Java platform that the Berlin clock converter relies on,
    stated over Dafny's unbounded integers and `seq<char>` strings:
    - `int` arithmetic: the 32-bit range and the truncating `/` and `%`
      (the Java Language Specification, sections 15.17.2 and 15.17.3);
    - `Integer.parseInt` on ASCII text;
    - `String.split` with a one-character, non-regex separator and limit 0;
    - `String.join`;
    - `StringBuffer.replace`. */
module JavaLang {
  import opened Wrappers

  /* ---------------------------------------------------------------------- */
  /* int                                                                    */
  /* ---------------------------------------------------------------------- */

  const IntMin: int := -0x8000_0000
  const IntMax: int := 0x7fff_ffff

  predicate IsInt(n: int) {
    IntMin <= n <= IntMax
  }

  function Abs(n: int): nat {
    if n < 0 then -n else n
  }

  /** Java's `a / b` for a positive divisor: the quotient rounded toward zero. */
  function Div(a: int, b: int): (q: int)
    requires b > 0
    ensures Abs(q) * b <= Abs(a) < Abs(q) * b + b
    ensures a >= 0 ==> q >= 0
    ensures a <= 0 ==> q <= 0
  {
    if a >= 0 then
      NatDivBounds(a, b);
      a / b
    else
      NatDivBounds(-a, b);
      -((-a) / b)
  }

  /** Dafny's division of a natural number by a positive one. */
  lemma NatDivBounds(a: int, b: int)
    requires a >= 0 && b > 0
    ensures a / b >= 0
    ensures (a / b) * b <= a < (a / b) * b + b
  {
    var q, r := a / b, a % b;
    assert a == q * b + r && 0 <= r < b;
  }

  /** Java's `a % b` for a positive divisor: the remainder takes the sign of
      the dividend, and `(a / b) * b + a % b == a`. */
  function Rem(a: int, b: int): (r: int)
    requires b > 0
    ensures Div(a, b) * b + r == a
    ensures a >= 0 ==> 0 <= r < b
    ensures a < 0 ==> -b < r <= 0
  {
    a - Div(a, b) * b
  }

  /** On a non-negative dividend Java's and Dafny's division agree. */
  lemma DivRemNonNegative(a: int, b: int)
    requires a >= 0 && b > 0
    ensures Div(a, b) == a / b && Rem(a, b) == a % b
  {
  }

  /* ---------------------------------------------------------------------- */
  /* Integer.parseInt and Integer.toString                                  */
  /* ---------------------------------------------------------------------- */

  predicate IsDigit(c: char) {
    '0' <= c <= '9'
  }

  predicate AllDigits(s: string) {
    forall k :: 0 <= k < |s| ==> IsDigit(s[k])
  }

  function DigitValue(c: char): nat
    requires IsDigit(c)
  {
    c as int - '0' as int
  }

  function DigitChar(d: nat): (c: char)
    requires d < 10
    ensures IsDigit(c) && DigitValue(c) == d
  {
    ('0' as int + d) as char
  }

  /** The value of a string of decimal digits, most significant first. */
  function DigitsValue(s: string): nat
    requires AllDigits(s)
    decreases |s|
  {
    if s == [] then 0 else 10 * DigitsValue(s[..|s| - 1]) + DigitValue(s[|s| - 1])
  }

  /** `Integer.parseInt(s)`: an optional `-` or `+` sign and at least one
      decimal digit, whose value lies in the `int` range; `None` stands for
      the `NumberFormatException`. */
  function ParseInt(s: string): (r: Option<int>)
    ensures r.Some? ==> IsInt(r.value)
  {
    if s == [] then None
    else
      var signed := s[0] == '-' || s[0] == '+';
      var digits := if signed then s[1..] else s;
      if digits == [] || !AllDigits(digits) then None
      else
        var magnitude: int := DigitsValue(digits);
        var v := if s[0] == '-' then -magnitude else magnitude;
        if IsInt(v) then Some(v) else None
  }

  /** What `Integer.parseInt` accepts: an optional sign, then at least one
      digit and nothing else; the value is the signed value of the digits. */
  lemma ParseIntSyntax(s: string)
    requires ParseInt(s).Some?
    ensures s != [] && (IsDigit(s[0]) || s[0] == '-' || s[0] == '+')
    ensures IsDigit(s[|s| - 1])
    ensures forall k :: 0 < k < |s| ==> IsDigit(s[k])
    ensures s[0] == '-' ==> ParseInt(s).value == -(DigitsValue(s[1..]) as int)
    ensures s[0] == '+' ==> ParseInt(s).value == DigitsValue(s[1..])
    ensures IsDigit(s[0]) ==> ParseInt(s).value == DigitsValue(s)
  {
    var digits := if s[0] == '-' || s[0] == '+' then s[1..] else s;
    assert s[|s| - 1] == digits[|digits| - 1];
  }

  /** The value an optional `sign` gives the digits `d`. */
  function SignedValue(sign: string, d: string): int
    requires AllDigits(d)
  {
    if sign == "-" then -(DigitsValue(d) as int) else DigitsValue(d)
  }

  /** The converse of `ParseIntSyntax`: an optional sign followed by at least
      one digit is accepted with its signed value when that lies in the `int`
      range, and rejected when it does not. */
  lemma ParseIntSignedDigits(sign: string, d: string)
    requires sign == "" || sign == "-" || sign == "+"
    requires d != [] && AllDigits(d)
    ensures IsInt(SignedValue(sign, d)) ==> ParseInt(sign + d) == Some(SignedValue(sign, d))
    ensures !IsInt(SignedValue(sign, d)) ==> ParseInt(sign + d) == None
  {
    var s := sign + d;
    if sign == "" {
      assert s == d;
      assert IsDigit(s[0]);
    } else {
      assert s[0] == sign[0] && s[1..] == d;
    }
  }

  /** The decimal digits of a natural number, without leading zeros. */
  function NatToString(n: nat): (s: string)
    ensures s != [] && AllDigits(s)
    decreases n
  {
    if n < 10 then [DigitChar(n)] else NatToString(n / 10) + [DigitChar(n % 10)]
  }

  /** `Integer.toString(n)`: a `-` for negative numbers, then the digits. */
  function IntToString(n: int): (s: string) {
    if n < 0 then "-" + NatToString(-n) else NatToString(n)
  }

  lemma {:induction false} DigitsValueNatToString(n: nat)
    ensures DigitsValue(NatToString(n)) == n
    decreases n
  {
    if n >= 10 {
      var s := NatToString(n);
      var prefix := NatToString(n / 10);
      assert s[..|s| - 1] == prefix;
      DigitsValueNatToString(n / 10);
    }
  }

  /** `Integer.parseInt` reads back every `int` that `Integer.toString` writes. */
  lemma ParseIntToString(n: int)
    requires IsInt(n)
    ensures ParseInt(IntToString(n)) == Some(n)
  {
    var digits := NatToString(Abs(n));
    DigitsValueNatToString(Abs(n));
    var s := IntToString(n);
    if n < 0 {
      assert s == "-" + digits;
      assert s[0] == '-' && s[1..] == digits;
    } else {
      assert s == digits;
      assert IsDigit(s[0]);
    }
  }

  /* ---------------------------------------------------------------------- */
  /* String.split and String.join                                           */
  /* ---------------------------------------------------------------------- */

  /** Every field of `s` between occurrences of `sep`, empty ones included. */
  function Fields(s: string, sep: char): (fs: seq<string>)
    ensures |fs| >= 1
    ensures forall k :: 0 <= k < |fs| ==> sep !in fs[k]
    decreases |s|
  {
    if s == [] then [[]]
    else
      var rest := Fields(s[1..], sep);
      if s[0] == sep then [[]] + rest else [[s[0]] + rest[0]] + rest[1..]
  }

  /** The longest prefix of `fs` that does not end in an empty string. */
  function DropTrailingEmpty(fs: seq<string>): (r: seq<string>)
    ensures r <= fs
    ensures r == [] || r[|r| - 1] != []
    ensures forall k :: |r| <= k < |fs| ==> fs[k] == []
    decreases |fs|
  {
    if fs == [] then fs
    else if fs[|fs| - 1] == [] then DropTrailingEmpty(fs[..|fs| - 1])
    else fs
  }

  /** `s.split(String.valueOf(sep))` for a separator that is not a regular
      expression metacharacter: the whole string when `sep` does not occur,
      otherwise every field with the trailing empty ones removed. */
  function Split(s: string, sep: char): (r: seq<string>)
    ensures sep !in s ==> r == [s]
    ensures sep in s ==> r <= Fields(s, sep) && (r == [] || r[|r| - 1] != [])
    ensures sep in s ==> forall k :: |r| <= k < |Fields(s, sep)| ==> Fields(s, sep)[k] == []
  {
    if sep !in s then [s] else DropTrailingEmpty(Fields(s, sep))
  }

  /** `String.join(sep, parts)`: the parts in order with `sep` between
      neighbours, and nothing before the first or after the last. */
  function Join(sep: string, parts: seq<string>): (r: string)
    ensures |parts| >= 1 ==> parts[0] <= r
    decreases |parts|
  {
    if |parts| == 0 then []
    else if |parts| == 1 then parts[0]
    else parts[0] + sep + Join(sep, parts[1..])
  }

  /** A join of five parts, written out. */
  lemma JoinFive(sep: string, parts: seq<string>)
    requires |parts| == 5
    ensures Join(sep, parts) == parts[0] + sep + parts[1] + sep + parts[2] + sep + parts[3] + sep + parts[4]
  {
    assert Join(sep, parts[3..]) == parts[3] + sep + parts[4];
    assert Join(sep, parts[2..]) == parts[2] + sep + Join(sep, parts[3..]);
    assert Join(sep, parts[1..]) == parts[1] + sep + Join(sep, parts[2..]);
  }

  /** Joining the fields of `s` with the separator gives `s` back. */
  lemma {:induction false} JoinFields(s: string, sep: char)
    ensures Join([sep], Fields(s, sep)) == s
    decreases |s|
  {
    if s != [] {
      var rest := Fields(s[1..], sep);
      JoinFields(s[1..], sep);
      if s[0] == sep {
        assert Fields(s, sep)[1..] == rest;
      } else {
        var fs := Fields(s, sep);
        assert fs[1..] == rest[1..];
        if |rest| > 1 {
          assert Join([sep], rest) == rest[0] + [sep] + Join([sep], rest[1..]);
        }
      }
    }
  }

  lemma {:induction false} FieldsWithout(s: string, sep: char)
    requires sep !in s
    ensures Fields(s, sep) == [s]
    decreases |s|
  {
    if s != [] {
      FieldsWithout(s[1..], sep);
      assert [s[0]] + s[1..] == s;
    }
  }

  lemma {:induction false} FieldsCons(a: string, sep: char, rest: string)
    requires sep !in a
    ensures Fields(a + [sep] + rest, sep) == [a] + Fields(rest, sep)
    decreases |a|
  {
    var s := a + [sep] + rest;
    if a == [] {
      assert s[1..] == rest;
    } else {
      assert s[1..] == a[1..] + [sep] + rest;
      FieldsCons(a[1..], sep, rest);
      assert [a[0]] + a[1..] == a;
    }
  }

  /** Splitting a join of parts that do not contain the separator gives the
      parts back. */
  lemma {:induction false} FieldsJoin(parts: seq<string>, sep: char)
    requires |parts| >= 1
    requires forall k :: 0 <= k < |parts| ==> sep !in parts[k]
    ensures Fields(Join([sep], parts), sep) == parts
    decreases |parts|
  {
    if |parts| == 1 {
      FieldsWithout(parts[0], sep);
    } else {
      FieldsJoin(parts[1..], sep);
      FieldsCons(parts[0], sep, Join([sep], parts[1..]));
      assert [parts[0]] + parts[1..] == parts;
    }
  }

  /* ---------------------------------------------------------------------- */
  /* StringBuffer.replace                                                   */
  /* ---------------------------------------------------------------------- */

  /** `buf.replace(start, end, str)`: the characters from `start` up to
      `end` (cut at the buffer's length) give way to `str`. Java throws
      `StringIndexOutOfBoundsException` unless `0 <= start <= length` and
      `start <= end`; with `start == length` the call appends `str`. */
  function Replace(buf: string, start: int, end: int, str: string): (r: string)
    requires 0 <= start <= |buf| && start <= end
    ensures |r| == |buf| - (if end < |buf| then end else |buf|) + start + |str|
    ensures r[..start] == buf[..start]
    ensures r[start..start + |str|] == str
    ensures end < |buf| ==> r[start + |str|..] == buf[end..]
  {
    buf[..start] + str + buf[(if end < |buf| then end else |buf|)..]
  }
}
