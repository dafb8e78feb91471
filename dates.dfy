/**
 * `parse_date`: strict day.month.year text to an ISO-8601 timestamp at
 * midnight UTC, or `None`. It is `datetime.strptime(s.strip(), "%d.%m.%Y")`
 * followed by `strftime("%Y-%m-%dT%H:%M:%S+00:00")`.
 */
module Dates {
  import opened Wrappers
  import opened Text

  datatype Date = Date(year: nat, month: nat, day: nat)

  predicate IsLeapYear(y: int) {
    y % 4 == 0 && (y % 100 != 0 || y % 400 == 0)
  }

  function DaysInMonth(y: int, m: int): int {
    if m == 2 then (if IsLeapYear(y) then 29 else 28)
    else if m == 4 || m == 6 || m == 9 || m == 11 then 30
    else 31
  }

  /** A date `datetime` accepts: years 1 (MINYEAR) to 9999 (MAXYEAR), real days. */
  predicate ValidDate(d: Date) {
    1 <= d.year <= 9999 && 1 <= d.month <= 12 && 1 <= d.day <= DaysInMonth(d.year, d.month)
  }

  /** Chronological order of dates. */
  predicate DateLe(a: Date, b: Date) {
    a.year < b.year || (a.year == b.year && (a.month < b.month || (a.month == b.month && a.day <= b.day)))
  }

  // ---- decimal digits ----

  predicate IsDigit(c: char) { '0' <= c <= '9' }

  predicate AllDigits(s: string) {
    forall k :: 0 <= k < |s| ==> IsDigit(s[k])
  }

  function Pow10(n: nat): nat {
    if n == 0 then 1 else 10 * Pow10(n - 1)
  }

  function DigitChar(x: nat): char
    requires x < 10
  {
    ('0' as int + x) as char
  }

  /** The number an all-digit string denotes (what `int()` gives for ASCII digits). */
  function Value(s: string): (v: nat)
    requires AllDigits(s)
    ensures v < Pow10(|s|)
  {
    if s == [] then 0 else Value(s[..|s| - 1]) * 10 + (s[|s| - 1] as int - '0' as int)
  }

  /** `x` in exactly `n` digits, zero-padded on the left (as `%Y`, `%m`, `%d` print). */
  function Pad(x: nat, n: nat): (r: string)
    ensures |r| == n && AllDigits(r)
  {
    if n == 0 then [] else Pad(x / 10, n - 1) + [DigitChar(x % 10)]
  }

  lemma {:induction false} ValueOfPad(x: nat, n: nat)
    requires x < Pow10(n)
    ensures Value(Pad(x, n)) == x
  {
    if n > 0 {
      ValueOfPad(x / 10, n - 1);
      var p := Pad(x, n);
      assert p[..n - 1] == Pad(x / 10, n - 1);
    }
  }

  lemma {:induction false} PadOfValue(s: string)
    requires AllDigits(s)
    ensures Pad(Value(s), |s|) == s
  {
    if s != [] {
      var init := s[..|s| - 1];
      var last := s[|s| - 1] as int - '0' as int;
      PadOfValue(init);
      assert (Value(init) * 10 + last) / 10 == Value(init);
      assert (Value(init) * 10 + last) % 10 == last;
      assert s == init + [s[|s| - 1]];
    }
  }

  /** Numbers compare by their leading digits, then by their last digit. */
  lemma DivModOrder(x: nat, y: nat)
    ensures x <= y <==> x / 10 < y / 10 || (x / 10 == y / 10 && x % 10 <= y % 10)
  {
    assert x == 10 * (x / 10) + x % 10 && y == 10 * (y / 10) + y % 10;
  }

  lemma DropLastDigit(x: nat, n: nat)
    requires 0 < n && x < Pow10(n)
    ensures x / 10 < Pow10(n - 1) && Pad(x, n) == Pad(x / 10, n - 1) + [DigitChar(x % 10)]
  {
  }

  lemma DigitOrder(a: nat, b: nat)
    requires a < 10 && b < 10
    ensures LexLe([DigitChar(a)], [DigitChar(b)]) <==> a <= b
  {
    assert [DigitChar(a)][1..] == [];
  }

  /** For numbers of at most `n` digits, the order of their padded forms is numeric order. */
  lemma {:induction false} PadOrder(x: nat, y: nat, n: nat)
    requires x < Pow10(n) && y < Pow10(n)
    ensures LexLe(Pad(x, n), Pad(y, n)) <==> x <= y
  {
    if n > 0 {
      var px, py := Pad(x / 10, n - 1), Pad(y / 10, n - 1);
      DropLastDigit(x, n);
      DropLastDigit(y, n);
      PadOrder(x / 10, y / 10, n - 1);
      LexLeAppend(px, [DigitChar(x % 10)], py, [DigitChar(y % 10)]);
      ValueOfPad(x / 10, n - 1);
      ValueOfPad(y / 10, n - 1);
      DigitOrder(x % 10, y % 10);
      DivModOrder(x, y);
    }
  }

  // ---- the accepted input ----

  /** Index of the first `c` in `s`, or `|s|` when there is none. */
  function IndexOf(s: string, c: char): (i: nat)
    ensures i <= |s| && (i < |s| ==> s[i] == c)
  {
    if s == [] || s[0] == c then 0 else 1 + IndexOf(s[1..], c)
  }

  /** The first `c` is at `i` when `s[i]` is one and nothing before it is. */
  lemma {:induction false} IndexOfIs(s: string, c: char, i: nat)
    requires i <= |s| && (i < |s| ==> s[i] == c)
    requires forall k :: 0 <= k < i ==> s[k] != c
    ensures IndexOf(s, c) == i
  {
    if i > 0 {
      assert s[0] != c;
      assert forall k :: 0 <= k < i - 1 ==> s[1..][k] == s[k + 1];
      IndexOfIs(s[1..], c, i - 1);
    }
  }

  /** `%d` (after strip): one or two digits naming 1 to 31. */
  predicate IsDayField(t: string) {
    1 <= |t| <= 2 && AllDigits(t) && 1 <= Value(t) <= 31
  }

  /** `%m`: one or two digits naming 1 to 12. */
  predicate IsMonthField(t: string) {
    1 <= |t| <= 2 && AllDigits(t) && 1 <= Value(t) <= 12
  }

  /** `%Y`: exactly four digits. */
  predicate IsYearField(t: string) {
    |t| == 4 && AllDigits(t)
  }

  /** The date `strptime(text.strip(), "%d.%m.%Y")` yields, or `None` where it raises. */
  function ParseDateParts(text: string): Option<Date> {
    MatchDayMonthYear(Strip(text))
  }

  /** Matching `%d.%m.%Y` against the whole of `t`, then building the date. */
  function MatchDayMonthYear(t: string): Option<Date> {
    var i := IndexOf(t, '.');
    if i == |t| then None
    else
      var rest := t[i + 1..];
      var j := IndexOf(rest, '.');
      if j == |rest| then None
      else FieldsToDate(t[..i], rest[..j], rest[j + 1..])
  }

  function FieldsToDate(dayText: string, monthText: string, yearText: string): Option<Date> {
    if IsDayField(dayText) && IsMonthField(monthText) && IsYearField(yearText) then
      var d := Date(Value(yearText), Value(monthText), Value(dayText));
      if ValidDate(d) then Some(d) else None
    else None
  }

  const MidnightUtc := "T00:00:00+00:00"

  /** `strftime("%Y-%m-%dT%H:%M:%S+00:00")` of a date at midnight. */
  function Format(d: Date): (r: string)
    ensures |r| == 25
  {
    Pad(d.year, 4) + MonthDayPart(d)
  }

  /** The `-MM-DDT00:00:00+00:00` part of `Format(d)`. */
  function MonthDayPart(d: Date): string {
    "-" + Pad(d.month, 2) + DayPart(d)
  }

  /** The `-DDT00:00:00+00:00` part of `Format(d)`. */
  function DayPart(d: Date): string {
    "-" + Pad(d.day, 2) + MidnightUtc
  }

  /** `parse_date` (close_script.py:24-29). */
  function ParseDate(text: string): (r: Option<string>)
    ensures r.Some? ==> exists d :: ValidDate(d) && r.value == Format(d)
  {
    match ParseDateParts(text)
    case None => None
    case Some(d) => Some(Format(d))
  }

  // ---- an independent description of the accepted input ----

  /** `d` written day.month.year, day and month in `dw` and `mw` digits. */
  function Dotted(d: Date, dw: nat, mw: nat): string {
    Pad(d.day, dw) + ("." + (Pad(d.month, mw) + ("." + Pad(d.year, 4))))
  }

  /** A width `%d` or `%m` accepts for value `v`: two digits, or one when `v < 10`. */
  predicate FieldWidth(w: nat, v: nat) {
    w == 2 || (w == 1 && v < 10)
  }

  /** `t` spells the date `d` in the form `%d.%m.%Y` accepts. */
  predicate Spells(t: string, d: Date) {
    exists dw: nat, mw: nat | dw <= 2 && mw <= 2 ::
      FieldWidth(dw, d.day) && FieldWidth(mw, d.month) && t == Dotted(d, dw, mw)
  }

  /** Where the two dots of a dotted date are. */
  lemma DottedSplits(d: Date, dw: nat, mw: nat, t: string)
    requires t == Dotted(d, dw, mw)
    ensures IndexOf(t, '.') == dw && dw < |t| && t[..dw] == Pad(d.day, dw)
    ensures var rest := t[dw + 1..];
      IndexOf(rest, '.') == mw && mw < |rest| && rest[..mw] == Pad(d.month, mw) && rest[mw + 1..] == Pad(d.year, 4)
  {
    var rest := Pad(d.month, mw) + ("." + Pad(d.year, 4));
    assert t[dw + 1..] == rest;
    IndexOfIs(t, '.', dw);
    IndexOfIs(rest, '.', mw);
  }

  /** A match reads the fields between the first dot and the next one. */
  lemma MatchAt(t: string, i: nat, j: nat)
    requires IndexOf(t, '.') == i && i < |t| && IndexOf(t[i + 1..], '.') == j && j < |t[i + 1..]|
    ensures MatchDayMonthYear(t) == FieldsToDate(t[..i], t[i + 1..][..j], t[i + 1..][j + 1..])
  {
  }

  lemma ParseDatePartsSound(text: string, d: Date)
    requires ParseDateParts(text) == Some(d)
    ensures ValidDate(d) && Spells(Strip(text), d)
  {
    MatchSound(Strip(text), d);
  }

  lemma DotSplit(t: string, i: nat)
    requires i < |t| && t[i] == '.'
    ensures t == t[..i] + ("." + t[i + 1..])
  {
    assert t == t[..i] + t[i..] && t[i..] == "." + t[i + 1..];
  }

  lemma MatchSound(t: string, d: Date)
    requires MatchDayMonthYear(t) == Some(d)
    ensures ValidDate(d) && Spells(t, d)
  {
    var dayText, monthText, yearText := MatchSplit(t);
    DottedOfFields(dayText, monthText, yearText);
    FieldWidthOfText(dayText);
    FieldWidthOfText(monthText);
    assert t == Dotted(d, |dayText|, |monthText|);
  }

  /** A match cuts `t` at its two dots into the three fields it then reads. */
  lemma MatchSplit(t: string) returns (dayText: string, monthText: string, yearText: string)
    requires MatchDayMonthYear(t).Some?
    ensures t == dayText + ("." + (monthText + ("." + yearText)))
    ensures FieldsToDate(dayText, monthText, yearText) == MatchDayMonthYear(t)
  {
    var i := IndexOf(t, '.');
    assert i < |t|;
    var rest := t[i + 1..];
    var j := IndexOf(rest, '.');
    assert j < |rest|;
    MatchAt(t, i, j);
    dayText, monthText, yearText := t[..i], rest[..j], rest[j + 1..];
    DotSplit(rest, j);
    DotSplit(t, i);
  }

  lemma FieldWidthOfText(t: string)
    requires 1 <= |t| <= 2 && AllDigits(t)
    ensures FieldWidth(|t|, Value(t))
  {
    if |t| == 1 {
      assert Pow10(1) == 10;
    }
  }

  lemma DottedOfFields(dayText: string, monthText: string, yearText: string)
    requires AllDigits(dayText) && AllDigits(monthText) && IsYearField(yearText)
    ensures dayText + ("." + (monthText + ("." + yearText)))
         == Dotted(Date(Value(yearText), Value(monthText), Value(dayText)), |dayText|, |monthText|)
  {
    PadOfValue(dayText);
    PadOfValue(monthText);
    PadOfValue(yearText);
  }

  /** The fields of a valid date, written in widths `%d` and `%m` accept, build that date. */
  lemma FieldsOfDate(d: Date, dw: nat, mw: nat)
    requires ValidDate(d) && FieldWidth(dw, d.day) && FieldWidth(mw, d.month)
    ensures FieldsToDate(Pad(d.day, dw), Pad(d.month, mw), Pad(d.year, 4)) == Some(d)
  {
    var dayText, monthText, yearText := Pad(d.day, dw), Pad(d.month, mw), Pad(d.year, 4);
    PaddedField(d.day, dw);
    PaddedField(d.month, mw);
    PaddedYear(d.year);
    assert IsDayField(dayText) && IsMonthField(monthText) && IsYearField(yearText);
    assert Date(Value(yearText), Value(monthText), Value(dayText)) == d;
  }

  /** A year of `datetime`'s range written by `%Y` reads back. */
  lemma PaddedYear(y: nat)
    requires y < 10000
    ensures Value(Pad(y, 4)) == y
  {
    assert Pow10(4) == 10000;
    ValueOfPad(y, 4);
  }

  /** A day or month written in a width `%d` or `%m` accepts reads back. */
  lemma PaddedField(v: nat, w: nat)
    requires FieldWidth(w, v) && v < 100
    ensures 1 <= |Pad(v, w)| <= 2 && Value(Pad(v, w)) == v
  {
    assert Pow10(1) == 10 && Pow10(2) == 100;
    ValueOfPad(v, w);
  }

  lemma ParseDatePartsComplete(text: string, d: Date, dw: nat, mw: nat)
    requires ValidDate(d) && FieldWidth(dw, d.day) && FieldWidth(mw, d.month)
    requires Strip(text) == Dotted(d, dw, mw)
    ensures ParseDateParts(text) == Some(d)
  {
    var t := Strip(text);
    DottedSplits(d, dw, mw, t);
    MatchAt(t, dw, mw);
    FieldsOfDate(d, dw, mw);
  }

  /**
   * `parse_date` accepts exactly the day.month.year spellings of real
   * calendar dates (after strip), and yields the date they spell.
   */
  lemma ParseDatePartsExactly(text: string, d: Date)
    ensures ParseDateParts(text) == Some(d) <==> ValidDate(d) && Spells(Strip(text), d)
  {
    if ParseDateParts(text) == Some(d) {
      ParseDatePartsSound(text, d);
    }
    if ValidDate(d) && Spells(Strip(text), d) {
      var dw: nat, mw: nat :| dw <= 2 && mw <= 2 && FieldWidth(dw, d.day) && FieldWidth(mw, d.month)
        && Strip(text) == Dotted(d, dw, mw);
      ParseDatePartsComplete(text, d, dw, mw);
    }
  }

  /**
   * `parse_date` succeeds with `s` exactly when the stripped text spells a
   * real calendar date as day.month.year and `s` is that date's ISO text.
   */
  lemma ParseDateExactly(text: string, s: string)
    ensures ParseDate(text) == Some(s) <==> exists d :: ValidDate(d) && Spells(Strip(text), d) && s == Format(d)
  {
    if ParseDate(text) == Some(s) {
      var d := ParseDateParts(text).value;
      ParseDatePartsExactly(text, d);
    }
    if exists d :: ValidDate(d) && Spells(Strip(text), d) && s == Format(d) {
      var d :| ValidDate(d) && Spells(Strip(text), d) && s == Format(d);
      ParseDatePartsExactly(text, d);
    }
  }

  /** Round trip: two-digit day and month, four-digit year, parse back to the date. */
  lemma ParseDateOfDotted(d: Date)
    requires ValidDate(d)
    ensures ParseDateParts(Dotted(d, 2, 2)) == Some(d)
    ensures ParseDate(Dotted(d, 2, 2)) == Some(Format(d))
  {
    var t := Dotted(d, 2, 2);
    assert t[0] == Pad(d.day, 2)[0] && t[|t| - 1] == Pad(d.year, 4)[3];
    StripOfStripped(t);
    ParseDatePartsExactly(t, d);
  }

  /** Comparing `-NN...` fields: the numbers decide, and on a tie the remainders. */
  lemma DashFieldOrder(x: nat, y: nat, n: nat, s1: string, s2: string)
    requires x < Pow10(n) && y < Pow10(n)
    ensures LexLe("-" + Pad(x, n) + s1, "-" + Pad(y, n) + s2) <==> x < y || (x == y && LexLe(s1, s2))
  {
    LexLeAppend("-" + Pad(x, n), s1, "-" + Pad(y, n), s2);
    LexLeAppend("-", Pad(x, n), "-", Pad(y, n));
    PadOrder(x, y, n);
    ValueOfPad(x, n);
    ValueOfPad(y, n);
    if "-" + Pad(x, n) == "-" + Pad(y, n) {
      assert Pad(x, n) == ("-" + Pad(x, n))[1..];
      assert Pad(y, n) == ("-" + Pad(y, n))[1..];
    }
  }

  lemma MonthDayPartOrder(a: Date, b: Date)
    requires ValidDate(a) && ValidDate(b)
    ensures LexLe(MonthDayPart(a), MonthDayPart(b)) <==> (a.month < b.month || (a.month == b.month && a.day <= b.day))
  {
    DashFieldOrder(a.month, b.month, 2, DayPart(a), DayPart(b));
    DashFieldOrder(a.day, b.day, 2, MidnightUtc, MidnightUtc);
    LexLeReflexive(MidnightUtc);
  }

  /** Fixed width and zero padding: string order of outputs is date order. */
  lemma FormatOrder(a: Date, b: Date)
    requires ValidDate(a) && ValidDate(b)
    ensures LexLe(Format(a), Format(b)) <==> DateLe(a, b)
  {
    LexLeAppend(Pad(a.year, 4), MonthDayPart(a), Pad(b.year, 4), MonthDayPart(b));
    PadOrder(a.year, b.year, 4);
    ValueOfPad(a.year, 4);
    ValueOfPad(b.year, 4);
    MonthDayPartOrder(a, b);
  }

  /** Distinct dates have distinct outputs. */
  lemma FormatInjective(a: Date, b: Date)
    requires ValidDate(a) && ValidDate(b)
    ensures Format(a) == Format(b) <==> a == b
  {
    if Format(a) == Format(b) {
      FormatOrder(a, b);
      FormatOrder(b, a);
    }
  }

  /** What the range filter relies on: comparing two outputs compares their dates. */
  lemma ParseDateOrder(s1: string, s2: string)
    requires ParseDateParts(s1).Some? && ParseDateParts(s2).Some?
    ensures ParseDate(s1).Some? && ParseDate(s2).Some?
    ensures LexLe(ParseDate(s1).value, ParseDate(s2).value)
        <==> DateLe(ParseDateParts(s1).value, ParseDateParts(s2).value)
  {
    var d1, d2 := ParseDateParts(s1).value, ParseDateParts(s2).value;
    ParseDatePartsExactly(s1, d1);
    ParseDatePartsExactly(s2, d2);
    FormatOrder(d1, d2);
  }

  lemma PadDayMonthExample()
    ensures Pad(1, 2) == "01" && Pad(3, 2) == "03"
  {
    assert Pad(0, 1) == "0";
  }

  lemma PadYearExample()
    ensures Pad(2020, 4) == "2020"
  {
    assert Pad(2, 1) == "2";
    assert Pad(20, 2) == "20";
    assert Pad(202, 3) == "202";
  }

  lemma FieldsExample()
    ensures FieldsToDate("01", "03", "2020") == Some(Date(2020, 3, 1))
  {
    PadDayMonthExample();
    PadYearExample();
    ValueOfPad(1, 2);
    ValueOfPad(3, 2);
    ValueOfPad(2020, 4);
    assert ValidDate(Date(2020, 3, 1));
  }

  lemma MatchExample(t: string)
    requires t == "01.03.2020"
    ensures MatchDayMonthYear(t) == Some(Date(2020, 3, 1))
  {
    IndexOfIs(t, '.', 2);
    var rest := t[3..];
    assert rest == "03.2020";
    IndexOfIs(rest, '.', 2);
    assert t[..2] == "01" && rest[..2] == "03" && rest[3..] == "2020";
    FieldsExample();
  }

  lemma ParseDatePartsExample(t: string)
    requires t == "01.03.2020"
    ensures ParseDateParts(t) == Some(Date(2020, 3, 1))
  {
    assert t[0] == '0' && t[|t| - 1] == '0';
    StripOfStripped(t);
    MatchExample(t);
  }

  lemma FormatExample()
    ensures Format(Date(2020, 3, 1)) == "2020-03-01T00:00:00+00:00"
  {
    var d := Date(2020, 3, 1);
    PadDayMonthExample();
    PadYearExample();
    assert Format(d) == "2020" + ("-" + "03" + ("-" + "01" + MidnightUtc));
    LiteralConcat();
  }

  lemma LiteralConcat()
    ensures "2020" + ("-" + "03" + ("-" + "01" + MidnightUtc)) == "2020-03-01T00:00:00+00:00"
  {
  }

  /** The worked example: `01.03.2020` becomes `2020-03-01T00:00:00+00:00`. */
  lemma ParseDateExample()
    ensures ParseDate("01.03.2020") == Some("2020-03-01T00:00:00+00:00")
  {
    ParseDatePartsExample("01.03.2020");
    FormatExample();
  }

  /** The ISO text has no `.`: it is digits, `-`, `T`, `:` and `+`. */
  lemma NoDotInFormat(d: Date)
    ensures forall k :: 0 <= k < |Format(d)| ==> Format(d)[k] != '.'
  {
    var y, m, dd := Pad(d.year, 4), Pad(d.month, 2), Pad(d.day, 2);
    assert Format(d) == y + ("-" + m + ("-" + dd + MidnightUtc));
    forall k | 0 <= k < 25 ensures Format(d)[k] != '.' {
      if k < 4 {
        assert Format(d)[k] == y[k];
      } else if 5 <= k < 7 {
        assert Format(d)[k] == m[k - 5];
      } else if 8 <= k < 10 {
        assert Format(d)[k] == dd[k - 8];
      }
    }
  }

  /** The output of `parse_date` is not itself an input it accepts: the
      normalized text cannot be parsed a second time. */
  lemma FormattedNotReparsed(d: Date)
    ensures ParseDate(Format(d)) == None
  {
    var t := Format(d);
    if ParseDateParts(t).Some? {
      var e := ParseDateParts(t).value;
      ParseDatePartsExactly(t, e);
      var dw: nat, mw: nat :| dw <= 2 && mw <= 2 && FieldWidth(dw, e.day) && FieldWidth(mw, e.month)
        && Strip(t) == Dotted(e, dw, mw);
      assert Strip(t)[dw] == '.';
      StripKeepsCharacters(t);
      NoDotInFormat(d);
      assert false;
    }
  }
}
