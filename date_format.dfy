/**
 * `convert_date_format`: the EXIF date string "YYYY:MM:DD HH:MM:SS" turned
 * into a year/month/day record by splitting, and the order in which the
 * outputter sorts those records.
 */
module DateFormat {
  import opened Wrappers
  import opened PyStr
  import opened SeqLemmas

  /** The `start_date` object: three strings, passed through without numeric checks. */
  datatype DateParts = DateParts(year: string, month: string, day: string)

  /** `date_str.split(" ")[0]`: the text before the first space, or all of it. */
  function DatePortion(dateStr: string): (d: string)
    ensures ' ' !in d
    ensures d <= dateStr
    ensures d == dateStr || dateStr[|d|] == ' '
  {
    Split(dateStr, ' ')[0]
  }

  /**
   * `convert_date_format`. Indexing the `:`-split of the date portion at 0, 1
   * and 2 raises IndexError in the script when there are fewer than three
   * fields; here that is `None`.
   */
  function ConvertDateFormat(dateStr: string): (r: Option<DateParts>)
    ensures r.Some? <==> Count(DatePortion(dateStr), ':') >= 2
    ensures r.Some? ==> ':' !in r.value.year && ':' !in r.value.month && ':' !in r.value.day
    ensures r.Some? ==> ' ' !in r.value.year && ' ' !in r.value.month && ' ' !in r.value.day
  {
    var parts := Split(DatePortion(dateStr), ':');
    SplitFieldsFromString(DatePortion(dateStr), ':', ' ');
    if |parts| < 3 then None
    else Some(DateParts(parts[0], parts[1], parts[2]))
  }

  /** Only the text before the first space matters: the time part is never looked at. */
  lemma ConvertIgnoresTime(date: string, time: string)
    requires ' ' !in date
    ensures ConvertDateFormat(date + [' '] + time) == ConvertDateFormat(date)
  {
    SplitAtFirst(date, ' ', time);
  }

  /** A string without spaces is its own date portion. */
  lemma DatePortionOfSpaceFree(s: string)
    requires ' ' !in s
    ensures DatePortion(s) == s
  {
  }

  /** A space-free string converts to its first three `:`-fields when it has them. */
  lemma ConvertSpaceFree(s: string, fields: seq<string>)
    requires ' ' !in s
    requires Split(s, ':') == fields && |fields| >= 3
    ensures ConvertDateFormat(s) == Some(DateParts(fields[0], fields[1], fields[2]))
  {
    DatePortionOfSpaceFree(s);
  }

  lemma SpaceFreeDate(year: string, month: string, day: string, rest: string)
    requires ' ' !in year && ' ' !in month && ' ' !in day && ' ' !in rest
    ensures ' ' !in year + [':'] + month + [':'] + day + rest
  {
  }

  lemma SplitDate(year: string, month: string, day: string, rest: string)
    requires ':' !in year && ':' !in month && ':' !in day
    requires rest == [] || rest[0] == ':'
    ensures Split(year + [':'] + month + [':'] + day + rest, ':') == [year, month] + Split(day + rest, ':')
    ensures Split(day + rest, ':')[0] == day
  {
    AppendAssoc(year + [':'] + month + [':'], day, rest);
    SplitTwoFields(year, month, day + rest);
    FirstField(day, ':', rest);
  }

  lemma SplitTwoFields(x: string, y: string, tail: string)
    requires ':' !in x && ':' !in y
    ensures Split(x + [':'] + y + [':'] + tail, ':') == [x, y] + Split(tail, ':')
  {
    var mid := y + [':'] + tail;
    assert x + [':'] + y + [':'] + tail == x + [':'] + mid;
    SplitAtFirst(y, ':', tail);
    SplitAtFirst(x, ':', mid);
    AppendAssoc([x], [y], Split(tail, ':'));
    assert [x] + [y] == [x, y];
  }

  /** Three colon-free fields followed by nothing or by more `:`-fields give exactly those three. */
  lemma ConvertFields(year: string, month: string, day: string, rest: string)
    requires ':' !in year && ':' !in month && ':' !in day
    requires ' ' !in year && ' ' !in month && ' ' !in day && ' ' !in rest
    requires rest == [] || rest[0] == ':'
    ensures ConvertDateFormat(year + [':'] + month + [':'] + day + rest) == Some(DateParts(year, month, day))
  {
    SpaceFreeDate(year, month, day, rest);
    SplitDate(year, month, day, rest);
    ConvertSpaceFree(year + [':'] + month + [':'] + day + rest, [year, month] + Split(day + rest, ':'));
  }

  /**
   * The converse: a successful conversion returns the first three `:`-fields
   * of the date portion, which continues with nothing or with further fields.
   */
  lemma ConvertedFieldsArePrefix(dateStr: string, p: DateParts)
    requires ConvertDateFormat(dateStr) == Some(p)
    ensures exists rest :: DatePortion(dateStr) == p.year + [':'] + p.month + [':'] + p.day + rest
                           && (rest == [] || rest[0] == ':')
  {
    var d := DatePortion(dateStr);
    JoinSplit(d, ':');
    JoinFirstThree(Split(d, ':'), ':');
  }

  predicate IsDigit(c: char)
  {
    '0' <= c <= '9'
  }

  predicate AllDigits(s: string)
  {
    forall k :: 0 <= k < |s| ==> IsDigit(s[k])
  }

  /** The fixed EXIF layout "YYYY:MM:DD HH:MM:SS". */
  predicate IsExifDateTime(s: string)
  {
    && |s| == 19
    && AllDigits(s[0..4]) && s[4] == ':' && AllDigits(s[5..7]) && s[7] == ':' && AllDigits(s[8..10])
    && s[10] == ' '
    && AllDigits(s[11..13]) && s[13] == ':' && AllDigits(s[14..16]) && s[16] == ':' && AllDigits(s[17..19])
  }

  /** Digits are neither of the two separators. */
  lemma DigitsHaveNoSeparator(s: string)
    requires AllDigits(s)
    ensures ':' !in s && ' ' !in s
  {
  }

  /** A well-formed EXIF date-time converts to its year, month and day substrings. */
  lemma ConvertExifDateTime(s: string)
    requires IsExifDateTime(s)
    ensures ConvertDateFormat(s) == Some(DateParts(s[0..4], s[5..7], s[8..10]))
  {
    var year, month, day := s[0..4], s[5..7], s[8..10];
    var date := s[..10];
    assert s == date + [' '] + s[11..];
    assert date == year + [':'] + month + [':'] + day + [];
    DigitsHaveNoSeparator(year);
    DigitsHaveNoSeparator(month);
    DigitsHaveNoSeparator(day);
    ConvertIgnoresTime(date, s[11..]);
    ConvertFields(year, month, day, []);
  }

  /** Python's tuple comparison `(year, month, day) < (year', month', day')`. */
  predicate DateLess(a: DateParts, b: DateParts)
  {
    || Less(a.year, b.year)
    || (a.year == b.year && Less(a.month, b.month))
    || (a.year == b.year && a.month == b.month && Less(a.day, b.day))
  }

  lemma DateLessIrreflexive(a: DateParts)
    ensures !DateLess(a, a)
  {
    LessIrreflexive(a.year);
    LessIrreflexive(a.month);
    LessIrreflexive(a.day);
  }

  lemma DateLessTransitive(a: DateParts, b: DateParts, c: DateParts)
    requires DateLess(a, b) && DateLess(b, c)
    ensures DateLess(a, c)
  {
    if Less(a.year, b.year) && Less(b.year, c.year) { LessTransitive(a.year, b.year, c.year); }
    if a.year == b.year == c.year && Less(a.month, b.month) && Less(b.month, c.month) {
      LessTransitive(a.month, b.month, c.month);
    }
    if a.year == b.year == c.year && a.month == b.month == c.month && Less(a.day, b.day) && Less(b.day, c.day) {
      LessTransitive(a.day, b.day, c.day);
    }
  }

  /** The tuple order is asymmetric: two dates are never below each other. */
  lemma DateLessAsymmetric(a: DateParts, b: DateParts)
    ensures DateLess(a, b) ==> !DateLess(b, a)
  {
    DateLessIrreflexive(a);
    if DateLess(a, b) && DateLess(b, a) {
      DateLessTransitive(a, b, a);
    }
  }

  /** Any two dates are ordered one way, the other way, or equal: the sort key is total. */
  lemma DateLessTrichotomy(a: DateParts, b: DateParts)
    ensures DateLess(a, b) || a == b || DateLess(b, a)
  {
    LessTrichotomy(a.year, b.year);
    LessTrichotomy(a.month, b.month);
    LessTrichotomy(a.day, b.day);
  }

  function Pow10(n: nat): (p: nat)
    ensures p > 0
  {
    if n == 0 then 1 else 10 * Pow10(n - 1)
  }

  function DigitValue(c: char): (d: nat)
    requires IsDigit(c)
    ensures d < 10
  {
    c as int - '0' as int
  }

  /** A digit in place `n`: `d * 10^n`. */
  function PlaceValue(d: nat, n: nat): nat
  {
    d * Pow10(n)
  }

  /** The decimal value of a digit string, most significant digit first. */
  function DecimalValue(s: string): nat
    requires AllDigits(s)
  {
    if s == [] then 0 else PlaceValue(DigitValue(s[0]), |s| - 1) + DecimalValue(s[1..])
  }

  lemma {:induction false} DecimalValueBound(s: string)
    requires AllDigits(s)
    ensures DecimalValue(s) < Pow10(|s|)
    decreases |s|
  {
    if s != [] {
      DecimalValueBound(s[1..]);
      NextMultiple(DigitValue(s[0]), 10, Pow10(|s| - 1));
    }
  }

  /** Leading digits decide: a smaller first digit means a smaller value of equal width. */
  lemma LeadingDigitDecides(a: string, b: string)
    requires AllDigits(a) && AllDigits(b) && |a| == |b| > 0
    requires a[0] < b[0]
    ensures DecimalValue(a) < DecimalValue(b)
  {
    DecimalValueBound(a[1..]);
    NextMultiple(DigitValue(a[0]), DigitValue(b[0]), Pow10(|a| - 1));
  }

  /** Between two multiples of `p` there is room for a remainder below `p`. */
  lemma NextMultiple(x: int, y: int, p: nat)
    requires x < y
    ensures x * p + p <= y * p
  {
    var d := y - x - 1;
    assert d >= 0;
    assert y * p == x * p + p + d * p;
  }

  /**
   * On zero-padded digit strings of one width, the string order used for
   * sorting is the numeric order.
   */
  lemma {:induction false} FixedWidthLessIsNumeric(a: string, b: string)
    requires AllDigits(a) && AllDigits(b) && |a| == |b|
    ensures Less(a, b) <==> DecimalValue(a) < DecimalValue(b)
    decreases |a|
  {
    if |a| > 0 {
      if a[0] < b[0] {
        LeadingDigitDecides(a, b);
      } else if b[0] < a[0] {
        LeadingDigitDecides(b, a);
      } else {
        FixedWidthLessIsNumeric(a[1..], b[1..]);
      }
    }
  }

  /** Numeric comparison of (year, month, day) triples. */
  predicate ChronologicallyBefore(y1: nat, m1: nat, d1: nat, y2: nat, m2: nat, d2: nat)
  {
    y1 < y2 || (y1 == y2 && m1 < m2) || (y1 == y2 && m1 == m2 && d1 < d2)
  }

  /**
   * For two well-formed EXIF date-times, the string comparison of the
   * converted dates is the chronological order of the calendar dates.
   */
  lemma ExifDateOrderIsChronological(x: string, y: string)
    requires IsExifDateTime(x) && IsExifDateTime(y)
    ensures ConvertDateFormat(x).Some? && ConvertDateFormat(y).Some?
    ensures DateLess(ConvertDateFormat(x).value, ConvertDateFormat(y).value) <==>
            ChronologicallyBefore(DecimalValue(x[0..4]), DecimalValue(x[5..7]), DecimalValue(x[8..10]),
                                  DecimalValue(y[0..4]), DecimalValue(y[5..7]), DecimalValue(y[8..10]))
  {
    ConvertExifDateTime(x);
    ConvertExifDateTime(y);
    FixedWidthLessIsNumeric(x[0..4], y[0..4]);
    FixedWidthLessIsNumeric(x[5..7], y[5..7]);
    FixedWidthLessIsNumeric(x[8..10], y[8..10]);
    FixedWidthSameValue(x[0..4], y[0..4]);
    FixedWidthSameValue(x[5..7], y[5..7]);
  }

  /** Equal width and equal value means the same digits. */
  lemma FixedWidthSameValue(a: string, b: string)
    requires AllDigits(a) && AllDigits(b) && |a| == |b|
    ensures a == b <==> DecimalValue(a) == DecimalValue(b)
  {
    FixedWidthLessIsNumeric(a, b);
    FixedWidthLessIsNumeric(b, a);
    LessTrichotomy(a, b);
  }
}
