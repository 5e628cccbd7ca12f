/** The date variant of the per-tag `DataType` strategy: calendar validation, the packed
    `YYYYMMDD` storage integer, the `YYYY-M[M]-D[D]` literal, the `YYYY-MM-DD` display
    text, the bare-integer storage text, comparison, casting and the (unsupported)
    arithmetic. */
module DateTypes {
  import opened Common

  datatype Date = Date(year: int, month: int, day: int)

  /** A `DataType` strategy object carries its tag and no other state. */
  datatype DataType = DataType(attrType: AttrType)

  /** `DateType()`: the strategy for the `Dates` tag. */
  function NewDateType(): (t: DataType)
    ensures t.attrType == Dates && t == DataType(Dates)
  {
    DataType(Dates)
  }

  // ---------------------------------------------------------------------------------
  // Calendar

  /** `is_leap_year`: the Gregorian rule, case by case: multiples of 400 are leap years,
      the other centuries are not, the other multiples of 4 are, and no other year is. A
      test against zero is the same for C++'s truncating `%` and Dafny's Euclidean `%`. */
  function IsLeapYear(year: int): (b: bool)
    ensures year % 400 == 0 ==> b
    ensures year % 100 == 0 && year % 400 != 0 ==> !b
    ensures year % 4 == 0 && year % 100 != 0 ==> b
    ensures year % 4 != 0 && year % 400 != 0 ==> !b
  {
    (year % 4 == 0 && year % 100 != 0) || year % 400 == 0
  }

  /** The length of each month, stated month by month. */
  function DaysInMonth(year: int, month: int): (n: int)
    requires 1 <= month <= 12
    ensures 28 <= n <= 31
    ensures n == 29 <==> month == 2 && IsLeapYear(year)
  {
    if month == 2 then (if IsLeapYear(year) then 29 else 28)
    else if month == 4 || month == 6 || month == 9 || month == 11 then 30
    else 31
  }

  /** The dates the date type accepts: years 1900 to 2100, real calendar days. */
  predicate ValidDate(d: Date)
  {
    && 1900 <= d.year <= 2100
    && 1 <= d.month <= 12
    && 1 <= d.day <= DaysInMonth(d.year, d.month)
  }

  /** `is_valid_date`: range checks, then a month-length table whose February entry is
      patched to 29 in a leap year. */
  method IsValidDate(year: int, month: int, day: int) returns (valid: bool)
    ensures valid == ValidDate(Date(year, month, day))
  {
    if year < 1900 || year > 2100 {
      return false;
    }
    if month < 1 || month > 12 {
      return false;
    }
    if day < 1 {
      return false;
    }
    var daysInMonth := new int[12] [31, 28, 31, 30, 31, 30, 31, 31, 30, 31, 30, 31];
    if IsLeapYear(year) {
      daysInMonth[1] := 29;
    }
    return day <= daysInMonth[month - 1];
  }

  /** February 29 exists exactly in the leap years of the supported range. */
  lemma LeapDay(year: int)
    ensures ValidDate(Date(year, 2, 29)) <==> 1900 <= year <= 2100 && IsLeapYear(year)
    ensures ValidDate(Date(2000, 2, 29)) && ValidDate(Date(2024, 2, 29))
    ensures !ValidDate(Date(1900, 2, 29)) && !ValidDate(Date(2023, 2, 29))
  {
  }

  // ---------------------------------------------------------------------------------
  // Packed storage integer

  /** `date_to_int`. */
  function DateToInt(d: Date): (n: int)
    ensures ValidDate(d) ==> 19000101 <= n <= 21001231
  {
    d.year * 10000 + d.month * 100 + d.day
  }

  /** `int_to_date`, with C++'s truncating `/` and `%`: it splits any integer into three
      parts that pack back to it, with month and day below 100 in magnitude. */
  function IntToDate(n: int): (d: Date)
    ensures DateToInt(d) == n
    ensures n >= 0 ==> 0 <= d.month < 100 && 0 <= d.day < 100
    ensures n >= 0 ==> 0 <= d.year
    ensures n < 0 ==> d.year <= 0 && -100 < d.month <= 0 && -100 < d.day <= 0
  {
    var rest := TruncMod(n, 10000);
    var month := TruncDiv(rest, 100);
    var day := TruncMod(n, 100);
    assert day == TruncMod(rest, 100) by {
      assert n == 10000 * TruncDiv(n, 10000) + rest;
      assert n == 100 * (100 * TruncDiv(n, 10000) + month) + TruncMod(rest, 100);
      UniqueTruncSplit100(n, 100 * TruncDiv(n, 10000) + month, TruncMod(rest, 100));
    }
    Date(TruncDiv(n, 10000), month, day)
  }

  /** A split `n == 100 * q + r` whose remainder has the sign of `n` and is below 100 in
      magnitude is the one C++'s `%` computes. */
  lemma UniqueTruncSplit100(n: int, q: int, r: int)
    requires n == 100 * q + r
    requires n >= 0 ==> 0 <= r < 100
    requires n < 0 ==> -100 < r <= 0
    ensures r == TruncMod(n, 100)
  {
    var q' := TruncDiv(n, 100);
    assert 100 * (q - q') == TruncMod(n, 100) - r;
  }

  /** A packed value determines its date: any non-negative split with month and day below
      100 is the one `int_to_date` computes. */
  lemma UnpackUnique(n: int, d: Date)
    requires n >= 0 && DateToInt(d) == n
    requires 0 <= d.month < 100 && 0 <= d.day < 100
    ensures IntToDate(n) == d
  {
    var e := IntToDate(n);
    assert 10000 * (d.year - e.year) == (e.month * 100 + e.day) - (d.month * 100 + d.day);
    assert d.year == e.year;
    assert 100 * (d.month - e.month) == e.day - d.day;
  }

  /** Packing then unpacking a valid date gives it back. */
  lemma PackUnpack(d: Date)
    requires ValidDate(d)
    ensures IntToDate(DateToInt(d)) == d
  {
    UnpackUnique(DateToInt(d), d);
  }

  /** Chronological order: by year, then month, then day. */
  predicate Before(a: Date, b: Date)
  {
    || a.year < b.year
    || (a.year == b.year && a.month < b.month)
    || (a.year == b.year && a.month == b.month && a.day < b.day)
  }

  /** On valid dates the packed integers are ordered chronologically and are distinct. */
  lemma PackIsChronological(a: Date, b: Date)
    requires ValidDate(a) && ValidDate(b)
    ensures DateToInt(a) < DateToInt(b) <==> Before(a, b)
    ensures DateToInt(a) == DateToInt(b) <==> a == b
  {
    var ra, rb := a.month * 100 + a.day, b.month * 100 + b.day;
    assert 0 < ra < 10000 && 0 < rb < 10000;
    if a.year < b.year {
      assert 10000 * (b.year - a.year) >= 10000;
    } else if a.year > b.year {
      assert 10000 * (a.year - b.year) >= 10000;
    } else if a.month < b.month {
      assert 100 * (b.month - a.month) >= 100;
    } else if a.month > b.month {
      assert 100 * (a.month - b.month) >= 100;
    }
  }

  // ---------------------------------------------------------------------------------
  // Date literal `YYYY-M[M]-D[D]`

  predicate IsDigit(c: char)
  {
    '0' <= c <= '9'
  }

  predicate AllDigits(s: string)
  {
    forall i | 0 <= i < |s| :: IsDigit(s[i])
  }

  /** The decimal value of a digit string (what `std::stoi` gives on at most four digits,
      which always fit an `int`). */
  function DigitsValue(s: string): (n: nat)
    requires AllDigits(s)
    ensures |s| <= 1 ==> n < 10
    ensures |s| <= 2 ==> n < 100
    ensures |s| <= 3 ==> n < 1000
    ensures |s| <= 4 ==> n < 10000
  {
    if s == [] then 0 else 10 * DigitsValue(s[..|s| - 1]) + (s[|s| - 1] as int - '0' as int)
  }

  /** The groups of a date literal: four year digits, one or two month digits, one or two
      day digits. */
  predicate WellFormedGroups(yg: string, mg: string, dg: string)
  {
    && |yg| == 4 && 1 <= |mg| <= 2 && 1 <= |dg| <= 2
    && AllDigits(yg) && AllDigits(mg) && AllDigits(dg)
  }

  function JoinGroups(yg: string, mg: string, dg: string): string
  {
    yg + "-" + mg + "-" + dg
  }

  /** The whole-string match of `^(\d{4})-(\d{1,2})-(\d{1,2})$` followed by `stoi` of the
      three groups, before any calendar check. */
  function MatchDateLiteral(s: string): (r: Option<Date>)
    ensures r.Some? ==> 8 <= |s| <= 10 && s[4] == '-'
    ensures r.Some? ==> 0 <= r.value.year < 10000 && 0 <= r.value.month < 100 && 0 <= r.value.day < 100
  {
    if |s| < 8 || !AllDigits(s[..4]) || s[4] != '-' then None
    else
      // the second '-' ends a one- or two-digit month group
      var k := if s[6] == '-' then 6 else if s[7] == '-' then 7 else 0;
      if k == 0 then None
      else
        var mg, dg := s[5..k], s[k + 1..];
        if AllDigits(mg) && 1 <= |dg| <= 2 && AllDigits(dg)
        then Some(Date(DigitsValue(s[..4]), DigitsValue(mg), DigitsValue(dg)))
        else None
  }

  /** Every string made of well-formed groups matches, yielding the groups' values. */
  lemma MatchJoin(yg: string, mg: string, dg: string)
    requires WellFormedGroups(yg, mg, dg)
    ensures MatchDateLiteral(JoinGroups(yg, mg, dg))
         == Some(Date(DigitsValue(yg), DigitsValue(mg), DigitsValue(dg)))
  {
    var s := JoinGroups(yg, mg, dg);
    assert s[..4] == yg;
    assert s[4] == '-';
    if |mg| == 1 {
      assert s[6] == '-' && s[5..6] == mg && s[7..] == dg;
    } else {
      assert s[6] == mg[1] && s[7] == '-' && s[5..7] == mg && s[8..] == dg;
    }
  }

  /** Nothing else matches: a matching string is made of well-formed groups, and the match
      yields their values. */
  lemma MatchSplit(s: string) returns (yg: string, mg: string, dg: string)
    requires MatchDateLiteral(s).Some?
    ensures WellFormedGroups(yg, mg, dg) && s == JoinGroups(yg, mg, dg)
    ensures MatchDateLiteral(s) == Some(Date(DigitsValue(yg), DigitsValue(mg), DigitsValue(dg)))
  {
    var k := if s[6] == '-' then 6 else 7;
    yg, mg, dg := s[..4], s[5..k], s[k + 1..];
    assert s == yg + "-" + mg + "-" + dg;
  }

  /** `parse_date_string` as a value: the literal matches and is a valid date. */
  function ParseDate(s: string): (r: Option<Date>)
    ensures r.Some? ==> ValidDate(r.value) && MatchDateLiteral(s) == r
    ensures r.None? ==> MatchDateLiteral(s).None? || !ValidDate(MatchDateLiteral(s).value)
  {
    match MatchDateLiteral(s)
    case None => None
    case Some(d) => if ValidDate(d) then Some(d) else None
  }

  /** `parse_date_string`: on a literal of the right shape the three out-parameters are
      written, valid date or not; on any other string they are left as they were. */
  method ParseDateString(dateStr: string, year: int, month: int, day: int)
    returns (ok: bool, year': int, month': int, day': int)
    ensures ok <==> ParseDate(dateStr).Some?
    ensures ok ==> ParseDate(dateStr) == Some(Date(year', month', day'))
    ensures MatchDateLiteral(dateStr).None? ==> year' == year && month' == month && day' == day
    ensures MatchDateLiteral(dateStr).Some? ==> MatchDateLiteral(dateStr) == Some(Date(year', month', day'))
  {
    year', month', day' := year, month, day;
    var groups := MatchDateLiteral(dateStr);
    if groups.None? {
      return false, year', month', day';
    }
    year', month', day' := groups.value.year, groups.value.month, groups.value.day;
    ok := IsValidDate(year', month', day');
  }

  /** The year group is read as a number. */
  lemma DigitsValue2025()
    ensures DigitsValue("2025") == 2025
  {
    assert DigitsValue("2") == 2 by { assert "2"[..0] == ""; }
    assert DigitsValue("20") == 20 by { assert "20"[..1] == "2"; }
    assert DigitsValue("202") == 202 by { assert "202"[..2] == "20"; }
    assert "2025"[..3] == "202";
  }

  /** The short forms are accepted. */
  lemma ParseDateAcceptsShortForm()
    ensures ParseDate("2025-2-3") == Some(Date(2025, 2, 3))
  {
    MatchJoin("2025", "2", "3");
    assert JoinGroups("2025", "2", "3") == "2025-2-3";
    DigitsValue2025();
    assert DigitsValue("2") == 2 by { assert "2"[..0] == ""; }
    assert DigitsValue("3") == 3 by { assert "3"[..0] == ""; }
  }

  /** A thirteenth month is rejected. */
  lemma ParseDateRejectsMonth13()
    ensures ParseDate("2025-13-01") == None
  {
    MatchJoin("2025", "13", "01");
    assert JoinGroups("2025", "13", "01") == "2025-13-01";
    assert DigitsValue("13") == 13 by {
      assert "13"[..1] == "1" && "1"[..0] == "";
    }
  }

  /** February 30 is rejected. */
  lemma ParseDateRejectsFebruary30()
    ensures ParseDate("2025-02-30") == None
  {
    MatchJoin("2025", "02", "30");
    assert JoinGroups("2025", "02", "30") == "2025-02-30";
    DigitsValue2025();
    assert DigitsValue("02") == 2 by {
      assert "02"[..1] == "0" && "0"[..0] == "";
    }
    assert DigitsValue("30") == 30 by {
      assert "30"[..1] == "3" && "3"[..0] == "";
    }
  }

  /** A two-digit year is rejected. */
  lemma ParseDateRejectsShortYear()
    ensures ParseDate("25-01-01") == None
  {
    assert "25-01-01"[..4] == "25-0";
    assert !IsDigit("25-01-01"[2]);
  }

  // ---------------------------------------------------------------------------------
  // Display text `YYYY-MM-DD`

  function DigitChar(n: nat): (c: char)
    requires n < 10
    ensures IsDigit(c) && c as int - '0' as int == n
  {
    ('0' as int + n) as char
  }

  /** The decimal text of a natural number, as `ostream << int` writes it. */
  function NatToText(n: nat): (s: string)
    ensures |s| >= 1 && AllDigits(s)
  {
    if n < 10 then [DigitChar(n)] else NatToText(n / 10) + [DigitChar(n % 10)]
  }

  /** `ostream << int`: a minus sign, then the digits of the magnitude. */
  function IntToText(i: int): (s: string)
    ensures |s| >= 1 && (s[0] == '-' <==> i < 0)
    ensures i < 0 ==> s == "-" + NatToText(-i)
    ensures i >= 0 ==> s == NatToText(i)
  {
    if i < 0 then "-" + NatToText(-i) else NatToText(i)
  }

  lemma {:induction false} NatToTextValue(n: nat)
    ensures DigitsValue(NatToText(n)) == n
  {
    if n >= 10 {
      NatToTextValue(n / 10);
      var s := NatToText(n);
      assert s[..|s| - 1] == NatToText(n / 10);
    }
  }

  lemma {:induction false} NatToTextLength(n: nat)
    ensures n < 10 ==> |NatToText(n)| == 1
    ensures 10 <= n < 100 ==> |NatToText(n)| == 2
    ensures 100 <= n < 1000 ==> |NatToText(n)| == 3
    ensures 1000 <= n < 10000 ==> |NatToText(n)| == 4
  {
    if n >= 10 {
      NatToTextLength(n / 10);
    }
  }

  /** `(x < 10 ? "0" : "") << x`. */
  function PadTwo(i: int): (s: string)
    ensures i < 10 ==> s == "0" + IntToText(i)
    ensures i >= 10 ==> s == IntToText(i)
    ensures i < 0 ==> s[..2] == "0-"
  {
    (if i < 10 then "0" else "") + IntToText(i)
  }

  /** A month or day is rendered as exactly two digits that read back as it. */
  lemma PadTwoDigits(i: int)
    requires 0 <= i < 100
    ensures |PadTwo(i)| == 2 && AllDigits(PadTwo(i)) && DigitsValue(PadTwo(i)) == i
  {
    NatToTextLength(i);
    NatToTextValue(i);
    if i < 10 {
      assert PadTwo(i) == "0" + NatToText(i);
      assert PadTwo(i)[..1] == "0";
    }
  }

  /** The display text of a packed date: year as-is, zero-padded month and day. For any
      non-negative integer, valid date or not, the month and day groups are two digits and
      the three groups read back pack to the integer. */
  function DateToString(n: int): (r: string)
    ensures n >= 0 ==>
      var d := IntToDate(n);
      var yg, mg, dg := NatToText(d.year), PadTwo(d.month), PadTwo(d.day);
      && r == JoinGroups(yg, mg, dg)
      && |mg| == 2 && |dg| == 2 && AllDigits(yg) && AllDigits(mg) && AllDigits(dg)
      && DateToInt(Date(DigitsValue(yg), DigitsValue(mg), DigitsValue(dg))) == n
  {
    var d := IntToDate(n);
    var text := IntToText(d.year) + "-" + PadTwo(d.month) + "-" + PadTwo(d.day);
    if n >= 0 then
      NatToTextValue(d.year);
      PadTwoDigits(d.month);
      PadTwoDigits(d.day);
      text
    else
      text
  }

  /** `to_string`: always succeeds with the display text of the packed payload. */
  function ToString(val: Value): (r: (RC, string))
    ensures r.0 == Success
    ensures r.1 == DateToString(val.intValue)
  {
    (Success, DateToString(val.intValue))
  }

  /** The display text of a valid date is ten characters: a four-digit year and two-digit
      month and day groups that read back as the date's parts. */
  lemma DisplayShape(d: Date)
    requires ValidDate(d)
    ensures DateToString(DateToInt(d)) == JoinGroups(NatToText(d.year), PadTwo(d.month), PadTwo(d.day))
    ensures |DateToString(DateToInt(d))| == 10
    ensures WellFormedGroups(NatToText(d.year), PadTwo(d.month), PadTwo(d.day))
    ensures DigitsValue(NatToText(d.year)) == d.year
    ensures DigitsValue(PadTwo(d.month)) == d.month && DigitsValue(PadTwo(d.day)) == d.day
  {
    PackUnpack(d);
    NatToTextLength(d.year);
    NatToTextValue(d.year);
    PadTwoDigits(d.month);
    PadTwoDigits(d.day);
  }

  /** The display text of every valid date parses back to that date. */
  lemma DisplayParsesBack(d: Date)
    requires ValidDate(d)
    ensures ParseDate(DateToString(DateToInt(d))) == Some(d)
  {
    DisplayShape(d);
    MatchJoin(NatToText(d.year), PadTwo(d.month), PadTwo(d.day));
  }

  lemma DisplayExamples()
    ensures DateToString(20250917) == "2025-09-17"
    ensures DateToString(20250101) == "2025-01-01"
  {
    PackUnpack(Date(2025, 9, 17));
    PackUnpack(Date(2025, 1, 1));
    assert NatToText(2025) == "2025";
  }

  // ---------------------------------------------------------------------------------
  // Comparison

  function DateValue(n: Int32): Value
  {
    Value(Dates, n, "")
  }

  function CharsValue(s: string): Value
  {
    Value(Chars, 0, s)
  }

  /** `DateType::compare(Value, Value)`: the sign of the packed comparison, against a date
      or against a string holding a valid date literal; `INT32_MAX` when the string does
      not parse. */
  function Compare(left: Value, right: Value): (r: int)
    requires left.attrType == Dates
    requires right.attrType == Dates || right.attrType == Chars
    ensures right.attrType == Dates ==>
      && (r == -1 || r == 0 || r == 1)
      && (r < 0 <==> left.intValue < right.intValue)
      && (r == 0 <==> left.intValue == right.intValue)
    ensures right.attrType == Chars ==> (r == INT32_MAX <==> ParseDate(right.stringValue).None?)
    ensures right.attrType == Chars && ParseDate(right.stringValue).Some? ==>
      && (r == -1 || r == 0 || r == 1)
      && (r < 0 <==> left.intValue < DateToInt(ParseDate(right.stringValue).value))
      && (r == 0 <==> left.intValue == DateToInt(ParseDate(right.stringValue).value))
  {
    if right.attrType == Dates then
      CompareInt(left.intValue, right.intValue)
    else
      match ParseDate(right.stringValue)
      case None => INT32_MAX
      case Some(d) => CompareInt(left.intValue, DateToInt(d))
  }

  /** Between two dates the comparison is a total order: antisymmetric, transitive and
      zero exactly on equal payloads. */
  lemma CompareIsTotalOrder(a: Value, b: Value, c: Value)
    requires a.attrType == Dates && b.attrType == Dates && c.attrType == Dates
    ensures Compare(a, b) == -Compare(b, a)
    ensures Compare(a, b) == 0 <==> a.intValue == b.intValue
    ensures Compare(a, b) <= 0 && Compare(b, c) <= 0 ==> Compare(a, c) <= 0
    ensures Compare(a, b) < 0 && Compare(b, c) < 0 ==> Compare(a, c) < 0
  {
  }

  /** On packed valid dates the comparison follows the calendar. */
  lemma CompareIsChronological(a: Date, b: Date)
    requires ValidDate(a) && ValidDate(b)
    ensures Compare(DateValue(DateToInt(a)), DateValue(DateToInt(b))) < 0 <==> Before(a, b)
    ensures Compare(DateValue(DateToInt(a)), DateValue(DateToInt(b))) == 0 <==> a == b
  {
    PackIsChronological(a, b);
  }

  /** Comparing with the display text of a valid date is comparing with the date itself. */
  lemma CompareWithDisplayText(left: Value, d: Date)
    requires left.attrType == Dates && ValidDate(d)
    ensures Compare(left, CharsValue(DateToString(DateToInt(d)))) == Compare(left, DateValue(DateToInt(d)))
  {
    DisplayParsesBack(d);
  }

  /** A malformed literal is incomparable: the sentinel, never a sign. */
  lemma CompareWithMalformedLiteral()
    ensures Compare(DateValue(20250101), CharsValue("2025-13-40")) == INT32_MAX
  {
    MatchJoin("2025", "13", "40");
    assert JoinGroups("2025", "13", "40") == "2025-13-40";
  }

  /** A columnar buffer of one attribute; a date column holds packed integers. */
  datatype Column = Column(attrType: AttrType, data: seq<Int32>)

  /** `DateType::compare(Column, Column, int, int)`: the same comparison as on values, on
      one slot of each column. */
  function CompareColumns(left: Column, right: Column, leftIdx: int, rightIdx: int): (r: int)
    requires left.attrType == Dates && right.attrType == Dates
    requires 0 <= leftIdx < |left.data| && 0 <= rightIdx < |right.data|
    ensures r == -1 || r == 0 || r == 1
    ensures r < 0 <==> left.data[leftIdx] < right.data[rightIdx]
    ensures r == 0 <==> left.data[leftIdx] == right.data[rightIdx]
    ensures r == Compare(DateValue(left.data[leftIdx]), DateValue(right.data[rightIdx]))
  {
    CompareInt(left.data[leftIdx], right.data[rightIdx])
  }

  // ---------------------------------------------------------------------------------
  // Casting and arithmetic

  /** `cast_cost`: zero to itself, the "infinite" sentinel to every other tag. */
  function CastCost(t: AttrType): (c: int)
    ensures c == 0 <==> t == Dates
    ensures t != Dates ==> c == INT32_MAX
  {
    if t == Dates then 0 else INT32_MAX
  }

  /** `cast_to`: only `Chars` is a target, holding the display text; any other target is
      unimplemented and `result` is not written. */
  function CastTo(val: Value, target: AttrType, result: Value): (r: (RC, Value))
    ensures target == Chars ==>
      r.0 == Success && r.1 == SetString(result, DateToString(val.intValue))
    ensures target != Chars ==> r.0 == Unimplemented && r.1 == result
  {
    if target == Chars then
      var (rc, text) := ToString(val);
      if rc != Success then (rc, result) else (Success, SetString(result, text))
    else
      (Unimplemented, result)
  }

  /** The cost table calls the cast to `Chars` impossible although `cast_to` performs it. */
  lemma CastCostDisagreesWithCastTo(val: Value, result: Value)
    ensures CastCost(Chars) == INT32_MAX
    ensures CastTo(val, Chars, result).0 == Success
  {
  }

  /** `add`: unsupported; `result` is not written. */
  function Add(left: Value, right: Value, result: Value): (r: (RC, Value))
    ensures r.0 == Unsupported && r.1 == result
  {
    (Unsupported, result)
  }

  /** `subtract`: unsupported; `result` is not written. */
  function Subtract(left: Value, right: Value, result: Value): (r: (RC, Value))
    ensures r.0 == Unsupported && r.1 == result
  {
    (Unsupported, result)
  }

  /** `multiply`: unsupported; `result` is not written. */
  function Multiply(left: Value, right: Value, result: Value): (r: (RC, Value))
    ensures r.0 == Unsupported && r.1 == result
  {
    (Unsupported, result)
  }

  /** `divide`: unsupported; `result` is not written. */
  function Divide(left: Value, right: Value, result: Value): (r: (RC, Value))
    ensures r.0 == Unsupported && r.1 == result
  {
    (Unsupported, result)
  }

  /** `negative`: unsupported; `result` is not written. */
  function Negative(val: Value, result: Value): (r: (RC, Value))
    ensures r.0 == Unsupported && r.1 == result
  {
    (Unsupported, result)
  }

  // ---------------------------------------------------------------------------------
  // Storage text: one bare decimal integer

  /** `isspace` in the C locale: space, tab, newline, vertical tab, form feed, return. */
  function IsSpace(c: char): (b: bool)
    ensures b <==> c in {' ', '\t', '\n', '\U{B}', '\U{C}', '\r'}
  {
    c == ' ' || '\t' <= c <= '\r'
  }

  /** The length of the run of white space `>>` skips. */
  function LeadingSpaces(s: string): (k: nat)
    ensures k <= |s|
    ensures forall i | 0 <= i < k :: IsSpace(s[i])
    ensures k < |s| ==> !IsSpace(s[k])
  {
    if s != [] && IsSpace(s[0]) then 1 + LeadingSpaces(s[1..]) else 0
  }

  /** What `stream >> int` followed by the `eof()` test accepts: white space, an optional
      sign, then digits reaching the end of the text, with a value that fits an `int`. */
  function ParseIntToken(s: string): (r: Option<Int32>)
    ensures LeadingSpaces(s) == |s| ==> r == None
    ensures forall i | 0 <= i < |s| ::
      !IsSpace(s[i]) && !IsDigit(s[i]) && s[i] != '-' && s[i] != '+' ==> r == None
    ensures r.Some? ==> IsDigit(s[|s| - 1])
  {
    var t := s[LeadingSpaces(s)..];
    var negative := |t| > 0 && t[0] == '-';
    var digits := if |t| > 0 && (t[0] == '-' || t[0] == '+') then t[1..] else t;
    if digits == [] || !AllDigits(digits) then None
    else
      var v: int := if negative then -(DigitsValue(digits) as int) else DigitsValue(digits);
      if -0x8000_0000 <= v <= 0x7fff_ffff then Some(v) else None
  }

  /** `set_value_from_str`: a whole-text integer token sets the integer payload; anything
      else is a type mismatch and leaves `val` as it was. */
  method SetValueFromStr(val: Value, data: string) returns (rc: RC, val': Value)
    ensures ParseIntToken(data).Some? ==>
      rc == Success && val' == SetInt(val, ParseIntToken(data).value)
    ensures ParseIntToken(data).None? ==> rc == SchemaFieldTypeMismatch && val' == val
  {
    rc, val' := Success, val;
    var parsed := ParseIntToken(data);
    if parsed.None? {
      rc := SchemaFieldTypeMismatch;
    } else {
      val' := SetInt(val, parsed.value);
    }
  }

  /** The decimal text of every `int` is accepted and gives that `int` back. */
  lemma StorageTextRoundTrip(n: Int32)
    ensures ParseIntToken(IntToText(n)) == Some(n)
  {
    var s := IntToText(n);
    var m: nat := if n < 0 then -(n as int) else n;
    NatToTextValue(m);
    assert LeadingSpaces(s) == 0 by {
      assert s[0] == '-' || IsDigit(s[0]);
    }
    if n < 0 {
      assert s[1..] == NatToText(m);
    }
  }

  /** The display form is never storage text: its `-` after the year ends the token. */
  lemma StorageTextRejectsDisplayText(d: Date)
    requires ValidDate(d)
    ensures ParseIntToken(DateToString(DateToInt(d))) == None
  {
    DisplayShape(d);
    var yg := NatToText(d.year);
    var s := DateToString(DateToInt(d));
    assert s[0] == yg[0] && s[4] == '-';
    StorageTextRejectsInnerMinus(s, 4);
  }

  /** Text that starts with a digit and has a `-` after it is no integer token. */
  lemma StorageTextRejectsInnerMinus(s: string, k: nat)
    requires 0 < k < |s| && IsDigit(s[0]) && s[k] == '-'
    ensures ParseIntToken(s) == None
  {
    assert LeadingSpaces(s) == 0 by { assert !IsSpace(s[0]); }
    assert s[LeadingSpaces(s)..] == s;
    assert !IsDigit(s[k]);
  }

  /** A bare run of digits reaching the end of the text is accepted when it fits. */
  lemma StorageTextOfDigits(s: string)
    requires s != [] && AllDigits(s) && DigitsValue(s) <= INT32_MAX
    ensures ParseIntToken(s) == Some(DigitsValue(s))
  {
    assert !IsSpace(s[0]);
  }

  lemma StorageTextAcceptsPackedDate()
    ensures ParseIntToken("20250917") == Some(20250917)
  {
    assert DigitsValue("20250917") == 20250917 by {
      assert DigitsValue("2") == 2 by { assert "2"[..0] == ""; }
      assert DigitsValue("20") == 20 by { assert "20"[..1] == "2"; }
      assert DigitsValue("202") == 202 by { assert "202"[..2] == "20"; }
      assert DigitsValue("2025") == 2025 by { assert "2025"[..3] == "202"; }
      assert DigitsValue("20250") == 20250 by { assert "20250"[..4] == "2025"; }
      assert DigitsValue("202509") == 202509 by { assert "202509"[..5] == "20250"; }
      assert DigitsValue("2025091") == 2025091 by { assert "2025091"[..6] == "202509"; }
      assert DigitsValue("20250917") == 20250917 by { assert "20250917"[..7] == "2025091"; }
    }
    StorageTextOfDigits("20250917");
  }

  lemma StorageTextRejectsTrailingText()
    ensures ParseIntToken("2025-09-17") == None
    ensures ParseIntToken("20250917x") == None
  {
    assert "2025-09-17"[4] == '-';
    assert LeadingSpaces("2025-09-17") == 0;
    assert "20250917x"[8] == 'x';
    assert LeadingSpaces("20250917x") == 0;
  }

  /** White space before the token and an explicit `+` are accepted; white space after it
      is not, since the token must reach the end of the text. */
  lemma StorageTextAcceptsSpaceAndPlus()
    ensures ParseIntToken(" \t+7") == Some(7)
    ensures ParseIntToken("7 ") == None
  {
    assert LeadingSpaces(" \t+7") == 2 by {
      assert " \t+7"[1..] == "\t+7" && "\t+7"[1..] == "+7";
    }
    assert " \t+7"[2..] == "+7" && "+7"[1..] == "7";
    assert DigitsValue("7") == 7 by { assert "7"[..0] == ""; }
  }

  /** The packed integer is not checked to be a date. */
  lemma StorageTextAcceptsNonDate()
    ensures ParseIntToken("99999999") == Some(99999999)
    ensures !ValidDate(IntToDate(99999999))
  {
    assert DigitsValue("99999999") == 99999999 by {
      assert DigitsValue("9") == 9 by { assert "9"[..0] == ""; }
      assert DigitsValue("99") == 99 by { assert "99"[..1] == "9"; }
      assert DigitsValue("999") == 999 by { assert "999"[..2] == "99"; }
      assert DigitsValue("9999") == 9999 by { assert "9999"[..3] == "999"; }
      assert DigitsValue("99999") == 99999 by { assert "99999"[..4] == "9999"; }
      assert DigitsValue("999999") == 999999 by { assert "999999"[..5] == "99999"; }
      assert DigitsValue("9999999") == 9999999 by { assert "9999999"[..6] == "999999"; }
      assert DigitsValue("99999999") == 99999999 by { assert "99999999"[..7] == "9999999"; }
    }
    StorageTextOfDigits("99999999");
    assert IntToDate(99999999).month == 99;
  }
}
