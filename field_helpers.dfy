/** The deterministic field helpers of lib/utils.ts: digit extraction and the
    US phone rules, the integer range guard, the "YYYY-MM-DD" branch of date
    coercion and the local ISO date rendering. */
module FieldHelpers {
  import opened Text
  import opened Calendar
  import opened JsValues

  // ---------- Digits ----------

  /** The ASCII digits of s, in order: the specification of KeepDigits. */
  function DigitsOf(s: string): (r: string)
    ensures |r| <= |s|
    ensures AllDigits(r)
  {
    if s == [] then []
    else DigitsOf(s[..|s| - 1]) + (if IsAsciiDigit(s[|s| - 1]) then [s[|s| - 1]] else [])
  }

  /** keepDigits: one pass over the input, appending each character whose
      code is 48..57. */
  method KeepDigits(input: string) returns (out: string)
    ensures out == DigitsOf(input)
  {
    out := "";
    for i := 0 to |input|
      invariant out == DigitsOf(input[..i])
    {
      var c := input[i] as int;
      if c >= 48 && c <= 57 {
        out := out + [input[i]];
      }
      assert input[..i + 1][..i] == input[..i];
    }
    assert input[..|input|] == input;
  }

  /** DigitsOf distributes over concatenation; together with its value on one
      character this says it is exactly the in-order subsequence of digits. */
  lemma {:induction false} DigitsOfConcat(a: string, b: string)
    ensures DigitsOf(a + b) == DigitsOf(a) + DigitsOf(b)
  {
    if b != [] {
      var c := b[|b| - 1];
      DigitsOfConcat(a, b[..|b| - 1]);
      assert (a + b)[..|a + b| - 1] == a + b[..|b| - 1];
      assert (a + b)[|a + b| - 1] == c;
      assert DigitsOf(a + b) == DigitsOf(a + b[..|b| - 1]) + (if IsAsciiDigit(c) then [c] else []);
      assert DigitsOf(b) == DigitsOf(b[..|b| - 1]) + (if IsAsciiDigit(c) then [c] else []);
    } else {
      assert a + b == a;
    }
  }

  lemma DigitsOfChar(c: char)
    ensures DigitsOf([c]) == if IsAsciiDigit(c) then [c] else []
  {
    assert [c][..0] == [];
  }

  /** On a string of digits nothing is dropped. */
  lemma {:induction false} DigitsOfAllDigits(s: string)
    requires AllDigits(s)
    ensures DigitsOf(s) == s
  {
    if s != [] {
      DigitsOfAllDigits(s[..|s| - 1]);
    }
  }

  lemma DigitsOfIdempotent(s: string)
    ensures DigitsOf(DigitsOf(s)) == DigitsOf(s)
  {
    DigitsOfAllDigits(DigitsOf(s));
  }

  // ---------- US phone ----------

  /** 10 characters, the first of which (the area code's first digit) is
      2..9; the source tests the first char code minus 48. */
  function IsValidUSPhoneDigits(digits: string): (ok: bool)
    ensures ok <==> |digits| == 10 && '2' <= digits[0] <= '9'
  {
    if |digits| != 10 then false
    else
      var first := (digits[0] as int) - 48;
      first >= 2 && first <= 9
  }

  /** Only the length and the first character are inspected. */
  lemma PhoneValidityIgnoresTail(d: string, e: string)
    requires |d| == |e| && (|d| > 0 ==> d[0] == e[0])
    ensures IsValidUSPhoneDigits(d) == IsValidUSPhoneDigits(e)
  {
  }

  const NotStringMessage := "Phone must be a string"
  const InvalidPhoneMessage := "Enter a valid US phone number (10 digits; area code cannot start with 0 or 1)"

  datatype PhoneCheck = PhoneCheck(ok: bool, digits: string, message: Option<string>)

  function SanitizeUSPhone(input: Value): (r: PhoneCheck)
    ensures !input.Str? ==> r == PhoneCheck(false, "", Some(NotStringMessage))
    ensures input.Str? ==> r.digits == DigitsOf(input.s) && r.ok == IsValidUSPhoneDigits(r.digits)
    ensures r.message.Some? <==> !r.ok
    ensures r.ok ==> |r.digits| == 10 && AllDigits(r.digits) && r.digits[0] !in {'0', '1'}
  {
    if !input.Str? then PhoneCheck(false, "", Some(NotStringMessage))
    else
      var digits := DigitsOf(input.s);
      if !IsValidUSPhoneDigits(digits) then PhoneCheck(false, digits, Some(InvalidPhoneMessage))
      else PhoneCheck(true, digits, None)
  }

  /** "(AAA) BBB-CCCC" for exactly 10 characters, the input itself otherwise. */
  function FormatUSPhone(digits: string): (r: string)
    ensures |digits| != 10 ==> r == digits
    ensures |digits| == 10 ==>
      && |r| == 14 && r[0] == '(' && r[4] == ')' && r[5] == ' ' && r[9] == '-'
      && r[1..4] + r[6..9] + r[10..] == digits
  {
    if |digits| != 10 then digits
    else
      var a := digits[..3];
      var b := digits[3..6];
      var c := digits[6..];
      var r := "(" + a + ") " + b + "-" + c;
      assert r[1..4] == a && r[6..9] == b && r[10..] == c;
      r
  }

  /** No digit is kept from ") ". */
  lemma DigitsOfCloseParen()
    ensures DigitsOf(") ") == []
  {
    DigitsOfConcat(")", " ");
    DigitsOfChar(')');
    DigitsOfChar(' ');
    assert ")" + " " == ") ";
  }

  /** Pieces without digits between three digit strings drop out. */
  lemma {:induction false} DigitsOfInterleaved(o: string, a: string, m: string, b: string, d: string, c: string)
    requires DigitsOf(o) == [] && DigitsOf(m) == [] && DigitsOf(d) == []
    requires DigitsOf(a) == a && DigitsOf(b) == b && DigitsOf(c) == c
    ensures DigitsOf(o + a + m + b + d + c) == a + b + c
  {
    DigitsOfConcat(o, a);
    assert DigitsOf(o + a) == a;
    DigitsOfConcat(o + a, m);
    assert DigitsOf(o + a + m) == a;
    DigitsOfConcat(o + a + m, b);
    DigitsOfConcat(o + a + m + b, d);
    assert DigitsOf(o + a + m + b + d) == a + b;
    DigitsOfConcat(o + a + m + b + d, c);
  }

  /** The digits of "(a) b-c" are a, b and c, in order. */
  lemma DigitsOfFormatted(a: string, b: string, c: string)
    requires AllDigits(a) && AllDigits(b) && AllDigits(c)
    ensures DigitsOf("(" + a + ") " + b + "-" + c) == a + b + c
  {
    DigitsOfAllDigits(a);
    DigitsOfAllDigits(b);
    DigitsOfAllDigits(c);
    DigitsOfChar('(');
    DigitsOfChar('-');
    DigitsOfCloseParen();
    DigitsOfInterleaved("(", a, ") ", b, "-", c);
  }

  /** Extracting the digits of a formatted number gives the number back. */
  lemma FormatThenKeepDigits(digits: string)
    requires AllDigits(digits)
    ensures DigitsOf(FormatUSPhone(digits)) == digits
  {
    DigitsOfAllDigits(digits);
    if |digits| == 10 {
      var a, b, c := digits[..3], digits[3..6], digits[6..];
      assert AllDigits(a) && AllDigits(b) && AllDigits(c) by {
        forall k | 0 <= k < 3 ensures IsAsciiDigit(a[k]) && IsAsciiDigit(b[k]) { }
        forall k | 0 <= k < 4 ensures IsAsciiDigit(c[k]) { }
      }
      DigitsOfFormatted(a, b, c);
      assert a + b + c == digits;
    }
  }

  // ---------- Numbers ----------

  /** n >= min && n <= max. */
  function InRange(n: int, min: int, max: int): (r: bool)
    ensures r <==> min <= n <= max
    ensures min > max ==> !r
  {
    n >= min && n <= max
  }

  // ---------- Dates ----------

  /** Number(str) followed by Number.isInteger, for a string of ASCII digits
      (the empty string reads as 0); None for every other string. */
  function ParseNumber(str: string): (r: Option<int>)
    ensures r.Some? <==> AllDigits(str)
    ensures r.Some? ==> r.value >= 0 && r.value == DecimalValue(str)
  {
    if AllDigits(str) then Some(DecimalValue(str)) else None
  }

  /** What the three pieces of "y-m-d" denote: the date (y, m, d) when every
      piece is a number, y > 1900 and d is a day of month m of year y. */
  function NamedDate(parts: seq<string>): Option<LocalDate>
    requires |parts| == 3
  {
    var y, m, d := ParseNumber(parts[0]), ParseNumber(parts[1]), ParseNumber(parts[2]);
    if && y.Some? && m.Some? && d.Some?
       && y.value > 1900 && 1 <= m.value <= 12
       && 1 <= d.value <= DaysInMonth(y.value, m.value)
    then Some(Date(y.value, m.value, d.value))
    else None
  }

  /** The checks of the three-piece branch of coerceDate, as written: range
      checks with d <= 31, then the new Date(y, m - 1, d) round-trip test. */
  function CoerceDateParts(parts: seq<string>): (r: Option<LocalDate>)
    requires |parts| == 3
    ensures r == NamedDate(parts)
  {
    var y, m, d := ParseNumber(parts[0]), ParseNumber(parts[1]), ParseNumber(parts[2]);
    if && y.Some? && m.Some? && d.Some?
       && y.value > 1900 && m.value >= 1 && m.value <= 12 && d.value >= 1 && d.value <= 31
    then
      var dt := ConstructLocal(y.value, m.value - 1, d.value);
      RoundTripIffInMonth(y.value, m.value, d.value);
      if dt.year == y.value && dt.month - 1 == m.value - 1 && dt.day == d.value
      then Some(dt) else None
    else None
  }

  /** coerceDate. A Date instance is returned when valid; a string that splits
      on '-' into three pieces goes through CoerceDateParts; any other string
      goes to the platform's date parser, given here as `fallback`; every
      other value gives null (None). */
  function CoerceDate(input: Value, fallback: string -> Option<LocalDate>): (r: Option<LocalDate>)
    ensures input.Str? && |Split(input.s, '-')| == 3 ==> r == NamedDate(Split(input.s, '-'))
    ensures input.Str? && |Split(input.s, '-')| != 3 ==> r == fallback(input.s)
    ensures input.DateObj? ==> r == input.date
    ensures !input.Str? && !input.DateObj? ==> r == None
  {
    match input
    case DateObj(date) => date
    case Str(s) =>
      var parts := Split(s, '-');
      if |parts| == 3 then CoerceDateParts(parts) else fallback(s)
    case _ => None
  }

  /** For "y-m-d" with digit pieces, coerceDate gives a date exactly when
      y > 1900, 1 <= m <= 12 and 1 <= d <= DaysInMonth(y, m), that date has
      exactly those fields, and the fallback parser is never consulted. */
  lemma CoerceDateDigits(ys: string, ms: string, ds: string, fallback: string -> Option<LocalDate>)
    requires AllDigits(ys) && AllDigits(ms) && AllDigits(ds)
    ensures
      var y, m, d := DecimalValue(ys), DecimalValue(ms), DecimalValue(ds);
      CoerceDate(Str(ys + "-" + ms + "-" + ds), fallback)
        == if y > 1900 && 1 <= m <= 12 && 1 <= d <= DaysInMonth(y, m)
           then Some(Date(y, m, d)) else None
  {
    var s := ys + "-" + ms + "-" + ds;
    SplitDateText(ys, ms, ds);
    var r := CoerceDate(Str(s), fallback);
    assert r == NamedDate([ys, ms, ds]);
  }

  lemma SplitDateText(ys: string, ms: string, ds: string)
    requires AllDigits(ys) && AllDigits(ms) && AllDigits(ds)
    ensures Split(ys + "-" + ms + "-" + ds, '-') == [ys, ms, ds]
  {
    var parts := [ys, ms, ds];
    assert Join(parts, '-') == ys + "-" + ms + "-" + ds by {
      assert parts[1..] == [ms, ds] && parts[1..][1..] == [ds];
      assert Join([ds], '-') == ds;
      assert Join([ms, ds], '-') == ms + ['-'] + ds;
      assert Join(parts, '-') == ys + ['-'] + (ms + ['-'] + ds);
    }
    NoDashInDigits(ys);
    NoDashInDigits(ms);
    NoDashInDigits(ds);
    SplitJoin(parts, '-');
  }

  lemma NoDashInDigits(s: string)
    requires AllDigits(s)
    ensures '-' !in s
  {
    forall k | 0 <= k < |s| ensures s[k] != '-' {
      assert IsAsciiDigit(s[k]);
    }
  }

  /** toISODateStringLocal: `${y}-${mm}-${dd}` with String() and padStart(2, "0"). */
  function ToISODateStringLocal(date: LocalDate): (r: string)
    ensures |r| >= 7 && r[|r| - 6] == '-' && r[|r| - 3] == '-'
    ensures AllDigits(r[|r| - 5..|r| - 3]) && DecimalValue(r[|r| - 5..|r| - 3]) == date.month
    ensures AllDigits(r[|r| - 2..]) && DecimalValue(r[|r| - 2..]) == date.day
    ensures date.year >= 0 ==> AllDigits(r[..|r| - 6]) && DecimalValue(r[..|r| - 6]) == date.year
    ensures date.year < 0 ==> r[0] == '-' && AllDigits(r[1..|r| - 6]) && DecimalValue(r[1..|r| - 6]) == -date.year
  {
    var y := IntToString(date.year);
    var m := PadStart2(IntToString(date.month));
    var d := PadStart2(IntToString(date.day));
    YearText(date.year);
    assert IntToString(date.month) == NatToDecimal(date.month);
    assert IntToString(date.day) == NatToDecimal(date.day);
    TwoDigits(date.month);
    TwoDigits(date.day);
    DateTextReads(y, m, d, date.year, date.month, date.day);
    y + "-" + m + "-" + d
  }

  /** String(n) is the digits of |n|, after a '-' when n is negative. */
  lemma YearText(n: int)
    ensures var y := IntToString(n);
      && |y| >= 1
      && (n >= 0 ==> AllDigits(y) && DecimalValue(y) == n)
      && (n < 0 ==> y[0] == '-' && AllDigits(y[1..]) && DecimalValue(y[1..]) == -n)
  {
    if n < 0 {
      assert IntToString(n)[1..] == NatToDecimal(-n);
    }
  }

  /** What the pieces of y + "-" + m + "-" + d read as. */
  lemma DateTextReads(y: string, m: string, d: string, year: int, month: nat, day: nat)
    requires |y| >= 1 && |m| == 2 && |d| == 2
    requires AllDigits(m) && DecimalValue(m) == month && AllDigits(d) && DecimalValue(d) == day
    requires year >= 0 ==> AllDigits(y) && DecimalValue(y) == year
    requires year < 0 ==> y[0] == '-' && AllDigits(y[1..]) && DecimalValue(y[1..]) == -year
    ensures var r := y + "-" + m + "-" + d;
      && |r| >= 7 && r[|r| - 6] == '-' && r[|r| - 3] == '-'
      && AllDigits(r[|r| - 5..|r| - 3]) && DecimalValue(r[|r| - 5..|r| - 3]) == month
      && AllDigits(r[|r| - 2..]) && DecimalValue(r[|r| - 2..]) == day
      && (year >= 0 ==> AllDigits(r[..|r| - 6]) && DecimalValue(r[..|r| - 6]) == year)
      && (year < 0 ==> r[0] == '-' && AllDigits(r[1..|r| - 6]) && DecimalValue(r[1..|r| - 6]) == -year)
  {
    DateTextSlices(y, m, d);
  }

  lemma DateTextSlices(y: string, m: string, d: string)
    requires |y| >= 1 && |m| == 2 && |d| == 2
    ensures var r := y + "-" + m + "-" + d;
      && |r| == |y| + 6 && r[|r| - 6] == '-' && r[|r| - 3] == '-'
      && r[|r| - 5..|r| - 3] == m && r[|r| - 2..] == d && r[..|r| - 6] == y
      && r[0] == y[0] && r[1..|r| - 6] == y[1..]
  {
  }

  /** Rendering a date after 1900 and coercing the text back gives the same
      (year, month, day). */
  lemma IsoRoundTrip(date: LocalDate, fallback: string -> Option<LocalDate>)
    requires date.year > 1900
    ensures CoerceDate(Str(ToISODateStringLocal(date)), fallback) == Some(date)
  {
    ReadBack(ToISODateStringLocal(date), date, fallback);
  }

  /** A text laid out as ToISODateStringLocal lays out a date after 1900
      coerces back to that date. */
  lemma ReadBack(r: string, date: LocalDate, fallback: string -> Option<LocalDate>)
    requires date.year > 1900
    requires |r| >= 7 && r[|r| - 6] == '-' && r[|r| - 3] == '-'
    requires AllDigits(r[..|r| - 6]) && DecimalValue(r[..|r| - 6]) == date.year
    requires AllDigits(r[|r| - 5..|r| - 3]) && DecimalValue(r[|r| - 5..|r| - 3]) == date.month
    requires AllDigits(r[|r| - 2..]) && DecimalValue(r[|r| - 2..]) == date.day
    ensures CoerceDate(Str(r), fallback) == Some(date)
  {
    var ys, ms, ds := r[..|r| - 6], r[|r| - 5..|r| - 3], r[|r| - 2..];
    assert r == ys + "-" + ms + "-" + ds;
    CoerceDateDigits(ys, ms, ds, fallback);
  }

  /** February 30th, "2023-02-30", overflows into March, so it is rejected. */
  lemma February30Rejected(fallback: string -> Option<LocalDate>)
    ensures CoerceDate(Str("2023" + "-" + "02" + "-" + "30"), fallback) == None
  {
    DecimalValueFour("2023");
    DecimalValueTwo("02");
    DecimalValueTwo("30");
    CoerceDateDigits("2023", "02", "30", fallback);
  }

  /** February 29th of a leap year, "2024-02-29", is accepted with its own
      fields. */
  lemma LeapDayAccepted(fallback: string -> Option<LocalDate>)
    ensures CoerceDate(Str("2024" + "-" + "02" + "-" + "29"), fallback) == Some(Date(2024, 2, 29))
  {
    DecimalValueFour("2024");
    DecimalValueTwo("02");
    DecimalValueTwo("29");
    assert IsLeapYear(2024) && DaysInMonth(2024, 2) == 29;
    CoerceDateDigits("2024", "02", "29", fallback);
  }
}
