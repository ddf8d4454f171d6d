/**
 * The dashboard's own date handling: the lenient last-contact-date parser, the
 * scheduled-date text written into each row, and the two converters between the stored
 * `YYYY/MM/DD` text and the `YYYY-MM-DD` value of a date input.
 */
module ContactDates {
  import opened Wrappers
  import opened Text
  import opened Calendar
  import opened Types
  import opened FollowUp

  /** The characters the last-contact parser deletes or turns into a separator. */
  predicate IsDateMarker(c: char) {
    c == '年' || c == '月' || c == '日' || IsWhite(c)
  }

  /** `value.replace(/年|月/g, '/').replace(/日/g, '').replace(/\s/g, '')` */
  function NormalizeContactDate(s: string): (r: string)
    ensures forall i :: 0 <= i < |r| ==> !IsDateMarker(r[i])
    ensures |r| <= |s|
  {
    if s == [] then []
    else
      var head := if s[0] == '年' || s[0] == '月' then "/" else if s[0] == '日' || IsWhite(s[0]) then "" else [s[0]];
      head + NormalizeContactDate(s[1..])
  }

  lemma {:induction false} NormalizeConcat(a: string, b: string)
    ensures NormalizeContactDate(a + b) == NormalizeContactDate(a) + NormalizeContactDate(b)
    decreases |a|
  {
    if a != [] {
      assert (a + b)[0] == a[0];
      assert (a + b)[1..] == a[1..] + b;
      NormalizeConcat(a[1..], b);
    } else {
      assert a + b == b;
    }
  }

  lemma {:induction false} NormalizeUnmarked(s: string)
    requires forall i :: 0 <= i < |s| ==> !IsDateMarker(s[i])
    ensures NormalizeContactDate(s) == s
    decreases |s|
  {
    if s != [] {
      NormalizeUnmarked(s[1..]);
    }
  }

  /**
   * `parseLastContactDate`: the day of a `Y/M/D` text, where 年 and 月 also separate and 日 and
   * white space are ignored. `None` (null) for '', '-' and '未設定', for fewer than three parts,
   * for a part that is not a number or is 0, and for a date past the range of `Date`.
   */
  function ParseLastContactDate(value: string): (r: Option<int>)
    ensures value == "" || value == "-" || value == Unset ==> r.None?
    ensures r.Some? ==> -MaxDay <= r.value <= MaxDay
  {
    if value == "" || value == "-" || value == Unset then None
    else DateOfNormalized(NormalizeContactDate(value))
  }

  /** The second half of `parseLastContactDate`, on the text with its markers normalised. */
  function DateOfNormalized(normalized: string): (r: Option<int>)
    ensures r.Some? ==> -MaxDay <= r.value <= MaxDay
  {
    var parts := Split(normalized, '/');
    if |parts| < 3 then None
    else DateOfNumbers(ParseInt(parts[0]), ParseInt(parts[1]), ParseInt(parts[2]))
  }

  /** `new Date(year, month - 1, day)`, or `None` when a number is NaN or 0 or the date is invalid. */
  function DateOfNumbers(year: Option<int>, month: Option<int>, day: Option<int>): (r: Option<int>)
    ensures r.Some? ==> -MaxDay <= r.value <= MaxDay
  {
    if year.None? || month.None? || day.None? then None
    else if year.value == 0 || month.value == 0 || day.value == 0 then None
    else
      var d := MakeDay(year.value, month.value - 1, day.value);
      if -MaxDay <= d <= MaxDay then Some(d) else None
  }

  /** The Japanese form `Y年M月D日` reads as the slash form `Y/M/D`. */
  lemma JapaneseFormIsSlashForm(y: string, m: string, d: string)
    requires forall i :: 0 <= i < |y| ==> !IsDateMarker(y[i]) && y[i] != '/'
    requires forall i :: 0 <= i < |m| ==> !IsDateMarker(m[i]) && m[i] != '/'
    requires forall i :: 0 <= i < |d| ==> !IsDateMarker(d[i]) && d[i] != '/'
    ensures ParseLastContactDate(y + "年" + m + "月" + d + "日") == ParseLastContactDate(y + "/" + m + "/" + d)
  {
    var jp := y + "年" + m + "月" + d + "日";
    var sl := y + "/" + m + "/" + d;
    NormalizeConcat(y + "年" + m + "月" + d, "日");
    NormalizeConcat(y + "年" + m + "月", d);
    NormalizeConcat(y + "年" + m, "月");
    NormalizeConcat(y + "年", m);
    NormalizeConcat(y, "年");
    NormalizeUnmarked(y);
    NormalizeUnmarked(m);
    NormalizeUnmarked(d);
    assert NormalizeContactDate("日") == "" by {
      assert "日"[1..] == [];
    }
    assert NormalizeContactDate("年") == "/" by {
      assert "年"[1..] == [];
    }
    assert NormalizeContactDate("月") == "/" by {
      assert "月"[1..] == [];
    }
    assert NormalizeContactDate(jp) == sl;
    NormalizeUnmarked(sl);
    assert jp != "" && jp != "-" && jp[|jp| - 1] == '日';
    assert jp != Unset;
    assert sl[|y|] == '/';
    assert sl != "" && sl != "-" && sl != Unset;
  }

  /** Three strings without `sep`, joined by `sep`, split back into those three strings. */
  lemma SplitTriple(a: string, b: string, c: string, sep: char)
    requires sep !in a && sep !in b && sep !in c
    ensures Split(a + [sep] + b + [sep] + c, sep) == [a, b, c]
  {
    assert a + [sep] + b + [sep] + c == a + [sep] + (b + [sep] + c);
    SplitFirstSeparator(a, sep, b + [sep] + c);
    SplitFirstSeparator(b, sep, c);
    SplitNoSeparator(c, sep);
  }

  lemma SplitDigitTriple(a: string, b: string, c: string, sep: char)
    requires AllDigits(a) && AllDigits(b) && AllDigits(c) && !IsDigit(sep)
    ensures Split(a + [sep] + b + [sep] + c, sep) == [a, b, c]
  {
    assert sep !in a && sep !in b && sep !in c;
    SplitTriple(a, b, c, sep);
  }

  lemma {:induction false} DigitsUnmarked(s: string)
    requires AllDigits(s)
    ensures forall i :: 0 <= i < |s| ==> !IsDateMarker(s[i]) && s[i] != '/'
  {
  }

  /** A text of three '/'-free parts joined by '/' reads its three numbers. */
  lemma DateOfTriple(a: string, b: string, c: string)
    requires '/' !in a && '/' !in b && '/' !in c
    ensures DateOfNormalized(a + "/" + b + "/" + c) == DateOfNumbers(ParseInt(a), ParseInt(b), ParseInt(c))
  {
    SplitTriple(a, b, c, '/');
    assert a + "/" + b + "/" + c == a + ['/'] + b + ['/'] + c;
  }

  /** `Y/M/D` with digit parts reads as `new Date(Y, M - 1, D)`, unless a part is zero. */
  lemma DateOfDigitTriple(ys: string, ms: string, ds: string)
    requires ys != [] && ms != [] && ds != [] && AllDigits(ys) && AllDigits(ms) && AllDigits(ds)
    requires DigitsValue(ys) != 0 && DigitsValue(ms) != 0 && DigitsValue(ds) != 0
    requires -MaxDay <= MakeDay(DigitsValue(ys), DigitsValue(ms) - 1, DigitsValue(ds)) <= MaxDay
    ensures DateOfNormalized(ys + "/" + ms + "/" + ds) == Some(MakeDay(DigitsValue(ys), DigitsValue(ms) - 1, DigitsValue(ds)))
  {
    assert '/' !in ys && '/' !in ms && '/' !in ds;
    DateOfTriple(ys, ms, ds);
    ParseIntDigits(ys);
    ParseIntDigits(ms);
    ParseIntDigits(ds);
    DateOfValidNumbers(DigitsValue(ys), DigitsValue(ms), DigitsValue(ds));
  }

  lemma DateOfValidNumbers(y: int, m: int, d: int)
    requires y != 0 && m != 0 && d != 0 && -MaxDay <= MakeDay(y, m - 1, d) <= MaxDay
    ensures DateOfNumbers(Some(y), Some(m), Some(d)) == Some(MakeDay(y, m - 1, d))
  {
  }

  /** `Y/M/D` with digit parts has no marker the normaliser would touch. */
  lemma DigitTripleNormalized(ys: string, ms: string, ds: string)
    requires AllDigits(ys) && AllDigits(ms) && AllDigits(ds)
    ensures NormalizeContactDate(ys + "/" + ms + "/" + ds) == ys + "/" + ms + "/" + ds
  {
    DigitsUnmarked(ys);
    DigitsUnmarked(ms);
    DigitsUnmarked(ds);
    NormalizeUnmarked(ys);
    NormalizeUnmarked(ms);
    NormalizeUnmarked(ds);
    NormalizeConcat(ys + "/" + ms + "/", ds);
    NormalizeConcat(ys + "/" + ms, "/");
    NormalizeConcat(ys + "/", ms);
    NormalizeConcat(ys, "/");
    assert NormalizeContactDate("/") == "/" by {
      assert "/"[1..] == [];
    }
  }

  /** A date printed as `YYYY/MM/DD` by the dashboard parses back to the same day. */
  lemma ParseFormattedDate(n: int)
    requires 1000 <= CivilFromDays(n).year <= 9999
    ensures ParseLastContactDate(FormatSlashDate(n)) == Some(n)
  {
    ParseFormattedCivil(CivilFromDays(n));
  }

  lemma ParseFormattedCivil(c: Civil)
    requires ValidCivil(c) && 1000 <= c.year <= 9999
    ensures ParseLastContactDate(FormatCivil(c)) == Some(DaysFromCivil(c))
  {
    var ys, ms, ds := FourDigitCivil(c);
    ParseDigitTripleOf(ys, ms, ds, c.year, c.month, c.day, DaysFromCivil(c));
  }

  lemma ParseDigitTripleOf(ys: string, ms: string, ds: string, y: int, m: int, d: int, n: int)
    requires |ys| == 4 && |ms| == 2 && |ds| == 2 && AllDigits(ys) && AllDigits(ms) && AllDigits(ds)
    requires DigitsValue(ys) == y && DigitsValue(ms) == m && DigitsValue(ds) == d
    requires y >= 1000 && m >= 1 && d >= 1
    requires MakeDay(y, m - 1, d) == n && -MaxDay <= n <= MaxDay
    ensures ParseLastContactDate(ys + "/" + ms + "/" + ds) == Some(n)
  {
    DigitTripleNormalized(ys, ms, ds);
    TripleHasNoSlash(ys, ms, ds);
    DateOfTriple(ys, ms, ds);
    ParseIntDigits(ys);
    ParseIntDigits(ms);
    ParseIntDigits(ds);
    DateOfValidNumbers(y, m, d);
    assert |ys + "/" + ms + "/" + ds| == 10;
  }

  lemma TripleHasNoSlash(ys: string, ms: string, ds: string)
    requires AllDigits(ys) && AllDigits(ms) && AllDigits(ds)
    ensures '/' !in ys && '/' !in ms && '/' !in ds
  {
  }

  /** A `YYYY/MM/DD` text of digits with non-zero parts inside the range of `Date` reads as that day. */
  lemma ParseDigitTriple(ys: string, ms: string, ds: string)
    requires |ys| == 4 && |ms| == 2 && |ds| == 2 && AllDigits(ys) && AllDigits(ms) && AllDigits(ds)
    requires DigitsValue(ys) != 0 && DigitsValue(ms) != 0 && DigitsValue(ds) != 0
    requires -MaxDay <= MakeDay(DigitsValue(ys), DigitsValue(ms) - 1, DigitsValue(ds)) <= MaxDay
    ensures ParseLastContactDate(ys + "/" + ms + "/" + ds) == Some(MakeDay(DigitsValue(ys), DigitsValue(ms) - 1, DigitsValue(ds)))
  {
    DigitTripleNormalized(ys, ms, ds);
    DateOfDigitTriple(ys, ms, ds);
    assert |ys + "/" + ms + "/" + ds| == 10;
  }

  /**
   * What `calculateScheduledDate` writes into the row: '' when no day is scheduled,
   * otherwise the scheduled day as `YYYY/MM/DD`, or `NaN/NaN/NaN` once it has passed the
   * end of the range of `Date`.
   */
  function ScheduledDateText(record: CustomerRecord, now: Now): string {
    match ScheduledDay(record.nextAction, ParseLastContactDate(record.lastContactDate), now)
    case None => ""
    case Some(d) => DateText(d)
  }

  /** `calculateScheduledDate` in the dashboard. */
  method CalculateScheduledDate(record: CustomerRecord, now: Now) returns (s: string)
    ensures s == ScheduledDateText(record, now)
  {
    var nextAction := record.nextAction;
    if nextAction == "" || nextAction == Unset {
      NoScheduledDateText(record, now);
      return "";
    }
    var lastDate := ParseLastContactDate(record.lastContactDate);
    if lastDate.None? {
      NoScheduledDateText(record, now);
      return "";
    }
    var daysToAdd := 0;
    if Contains(nextAction, Recontact) {
      daysToAdd := 5;
    } else if Contains(nextAction, FollowUpAction) {
      daysToAdd := 9;
    } else if Contains(nextAction, NewProposal) {
      daysToAdd := 14;
    } else if Contains(nextAction, Remind) {
      daysToAdd := 14;
    } else if Contains(nextAction, Closing) {
      daysToAdd := 7;
    } else if Contains(nextAction, Done) {
      NoScheduledDateText(record, now);
      return "";
    } else {
      daysToAdd := 14;
    }
    assert ActionOffset(nextAction) == Some(daysToAdd);
    // `setDate` on a valid day; past the end of the range the date becomes invalid
    var scheduledDate := lastDate.value + daysToAdd;
    // an Invalid Date is never `< now`
    if ValidDay(scheduledDate) && MidnightBefore(scheduledDate, now) {
      scheduledDate := now.today + daysToAdd;
    }
    assert FollowUpDay(lastDate.value, daysToAdd, now) == scheduledDate;
    SomeScheduledDateText(record, now, lastDate.value, daysToAdd);
    s := DateText(scheduledDate);
  }

  lemma NoScheduledDateText(record: CustomerRecord, now: Now)
    requires IsUnsetAction(record.nextAction) || ParseLastContactDate(record.lastContactDate).None?
      || ActionOffset(record.nextAction).None?
    ensures ScheduledDateText(record, now) == ""
  {
  }

  lemma SomeScheduledDateText(record: CustomerRecord, now: Now, last: int, offset: nat)
    requires !IsUnsetAction(record.nextAction) && ParseLastContactDate(record.lastContactDate) == Some(last)
    requires ActionOffset(record.nextAction) == Some(offset)
    ensures ScheduledDateText(record, now) == DateText(FollowUpDay(last, offset, now))
  {
    ScheduledDayOfOffset(record.nextAction, last, offset, now);
  }

  /**
   * The row's scheduled date is '' exactly when the action is unset, the last contact date
   * does not parse, or the action is finished.
   */
  lemma ScheduledDateTextCases(record: CustomerRecord, now: Now)
    ensures ScheduledDateText(record, now) == "" <==>
      IsUnsetAction(record.nextAction) || ParseLastContactDate(record.lastContactDate).None?
      || ActionOffset(record.nextAction).None?
  {
    TextEmptyCases(ScheduledDateText(record, now), record.nextAction, ParseLastContactDate(record.lastContactDate), now);
  }

  /**
   * Otherwise the row's scheduled date is the text of a day that is not in the past, the last
   * contact day plus the action's offset unless that is already over; the text is
   * `NaN/NaN/NaN` exactly when that day is past the end of the range of `Date`, and the
   * day's `YYYY/MM/DD` otherwise.
   */
  lemma ScheduledDateTextDay(record: CustomerRecord, now: Now, last: int, offset: nat)
    requires !IsUnsetAction(record.nextAction) && ParseLastContactDate(record.lastContactDate) == Some(last)
    requires ActionOffset(record.nextAction) == Some(offset)
    ensures var d := if MidnightBefore(last + offset, now) then now.today + offset else last + offset;
      && !MidnightBefore(d, now)
      && (ScheduledDateText(record, now) == InvalidDateText <==> d > MaxDay)
      && (d <= MaxDay ==> ScheduledDateText(record, now) == FormatSlashDate(d))
  {
    TextOfOffset(ScheduledDateText(record, now), record.nextAction, last, offset, now);
  }

  /** The scheduled text is '' exactly when no day is scheduled. */
  lemma TextEmptyCases(text: string, action: string, lastDay: Option<int>, now: Now)
    requires lastDay.Some? ==> ValidDay(lastDay.value)
    requires text == match ScheduledDay(action, lastDay, now) case None => "" case Some(d) => DateText(d)
    ensures text == "" <==> IsUnsetAction(action) || lastDay.None? || ActionOffset(action).None?
  {
    if !IsUnsetAction(action) && lastDay.Some? && ActionOffset(action).Some? {
      TextOfOffset(text, action, lastDay.value, ActionOffset(action).value, now);
    }
  }

  /** The text scheduled from a valid day and an action with an offset. */
  lemma TextOfOffset(text: string, action: string, last: int, offset: nat, now: Now)
    requires ValidDay(last) && !IsUnsetAction(action) && ActionOffset(action) == Some(offset)
    requires text == match ScheduledDay(action, Some(last), now) case None => "" case Some(d) => DateText(d)
    ensures var d := if MidnightBefore(last + offset, now) then now.today + offset else last + offset;
      && text != "" && !MidnightBefore(d, now)
      && (text == InvalidDateText <==> d > MaxDay)
      && (d <= MaxDay ==> text == FormatSlashDate(d))
  {
    ActionOffsetBounds(action);
    ScheduledDayOfOffset(action, last, offset, now);
    FollowUpText(text, last, offset, now);
  }

  /** The text of a follow-up day scheduled from a valid day with a positive offset. */
  lemma FollowUpText(text: string, last: int, offset: nat, now: Now)
    requires ValidDay(last) && offset > 0 && text == DateText(FollowUpDay(last, offset, now))
    ensures var d := if MidnightBefore(last + offset, now) then now.today + offset else last + offset;
      && text != "" && !MidnightBefore(d, now)
      && (text == InvalidDateText <==> d > MaxDay)
      && (d <= MaxDay ==> text == FormatSlashDate(d))
  {
    var d := FollowUpDay(last, offset, now);
    assert d == if MidnightBefore(last + offset, now) then now.today + offset else last + offset;
    assert !MidnightBefore(d, now);
    DateTextMarksInvalid(d);
  }

  /** Re-parsing the text the dashboard wrote gives back the scheduled day itself. */
  lemma ScheduledDateTextReparses(record: CustomerRecord, now: Now)
    requires ScheduledDay(record.nextAction, ParseLastContactDate(record.lastContactDate), now).Some?
    requires 1000 <= CivilFromDays(ScheduledDay(record.nextAction, ParseLastContactDate(record.lastContactDate), now).value).year <= 9999
    ensures ParseLastContactDate(ScheduledDateText(record, now)) == ScheduledDay(record.nextAction, ParseLastContactDate(record.lastContactDate), now)
  {
    var d := ScheduledDay(record.nextAction, ParseLastContactDate(record.lastContactDate), now).value;
    var _, _, _ := FourDigitSlashDate(d);
    ParseFormattedDate(d);
  }

  /** The date-input parser's separators: 年, 月, '.', '/' become '-', and 日 is dropped. */
  function NormalizeInputDate(s: string): (r: string)
    ensures forall i :: 0 <= i < |r| ==> r[i] != '年' && r[i] != '月' && r[i] != '日' && r[i] != '.' && r[i] != '/'
  {
    if s == [] then []
    else
      var c := s[0];
      var head := if c == '年' || c == '月' || c == '.' || c == '/' then "-" else if c == '日' then "" else [c];
      head + NormalizeInputDate(s[1..])
  }

  lemma {:induction false} NormalizeInputConcat(a: string, b: string)
    ensures NormalizeInputDate(a + b) == NormalizeInputDate(a) + NormalizeInputDate(b)
    decreases |a|
  {
    if a != [] {
      assert (a + b)[0] == a[0];
      assert (a + b)[1..] == a[1..] + b;
      NormalizeInputConcat(a[1..], b);
    } else {
      assert a + b == b;
    }
  }

  lemma {:induction false} NormalizeInputDigits(s: string)
    requires AllDigits(s)
    ensures NormalizeInputDate(s) == s
    decreases |s|
  {
    if s != [] {
      NormalizeInputDigits(s[1..]);
    }
  }

  /**
   * `formatDateForInput`: the `YYYY-MM-DD` value of a stored date text, '' when it does not
   * split into exactly three non-blank parts or the year part is not four characters long.
   */
  function FormatDateForInput(value: string): (r: string)
    ensures value == "" || value == "-" || value == Unset ==> r == ""
    ensures r == "" || (|r| >= 10 && r[4] == '-')
  {
    if value == "" || value == "-" || value == Unset then ""
    else
      var parts := TrimmedNonEmpty(Split(NormalizeInputDate(value), '-'));
      if |parts| != 3 || |parts[0]| != 4 then ""
      else DashDate(parts[0], parts[1], parts[2])
  }

  /** `${year}-${month.padStart(2, '0')}-${day.padStart(2, '0')}` for a four-character year. */
  function DashDate(year: string, month: string, day: string): (r: string)
    requires |year| == 4
    ensures |r| >= 10 && r[4] == '-' && r[..4] == year
  {
    var head := year + "-";
    var tail := PadStart2(month) + "-" + PadStart2(day);
    assert (head + tail)[..4] == head[..4] == year;
    head + tail
  }

  /**
   * `formatDateFromInput`: '' stays ''; a value with three '-'-separated non-empty parts becomes
   * `year/month/day` (later parts are ignored); anything else is returned unchanged.
   */
  function FormatDateFromInput(value: string): (r: string)
    ensures value == "" ==> r == ""
    ensures '-' !in value ==> r == value
  {
    if value == "" then ""
    else
      var parts := Split(value, '-');
      if |parts| < 3 || parts[0] == "" || parts[1] == "" || parts[2] == "" then value
      else parts[0] + "/" + parts[1] + "/" + parts[2]
  }

  /** Three non-empty parts without '-' joined by '-' come back joined by '/'. */
  lemma FromInputOfDashTriple(y: string, m: string, d: string)
    requires y != [] && m != [] && d != [] && '-' !in y && '-' !in m && '-' !in d
    ensures FormatDateFromInput(y + "-" + m + "-" + d) == y + "/" + m + "/" + d
  {
    SplitTriple(y, m, d, '-');
    assert y + "-" + m + "-" + d == y + ['-'] + m + ['-'] + d;
  }

  lemma PadKeepsAbsent(s: string, c: char)
    requires c !in s && c != '0'
    ensures c !in PadStart2(s)
  {
  }

  /** `FormatDateFromInput` of a `FormatDateForInput` result only turns its two '-' into '/'. */
  lemma InputRoundTrip(value: string)
    requires FormatDateForInput(value) != ""
    ensures var parts := TrimmedNonEmpty(Split(NormalizeInputDate(value), '-'));
      FormatDateFromInput(FormatDateForInput(value)) == parts[0] + "/" + PadStart2(parts[1]) + "/" + PadStart2(parts[2])
  {
    var parts := TrimmedNonEmpty(Split(NormalizeInputDate(value), '-'));
    TrimmedNonEmptyAbsent(Split(NormalizeInputDate(value), '-'), '-');
    assert '-' !in parts[0] && '-' !in parts[1] && '-' !in parts[2];
    PadKeepsAbsent(parts[1], '-');
    PadKeepsAbsent(parts[2], '-');
    FromInputOfDashTriple(parts[0], PadStart2(parts[1]), PadStart2(parts[2]));
    ForInputParts(value);
  }

  lemma ForInputParts(value: string)
    requires FormatDateForInput(value) != ""
    ensures var parts := TrimmedNonEmpty(Split(NormalizeInputDate(value), '-'));
      |parts| == 3 && FormatDateForInput(value) == parts[0] + "-" + PadStart2(parts[1]) + "-" + PadStart2(parts[2])
  {
    var parts := TrimmedNonEmpty(Split(NormalizeInputDate(value), '-'));
    assert |parts| == 3 && |parts[0]| == 4;
    assert FormatDateForInput(value) == DashDate(parts[0], parts[1], parts[2]);
  }

  lemma DigitsNormalizedForInput(ys: string, ms: string, ds: string)
    requires AllDigits(ys) && AllDigits(ms) && AllDigits(ds)
    ensures NormalizeInputDate(ys + "/" + ms + "/" + ds) == ys + ['-'] + ms + ['-'] + ds
  {
    NormalizeInputConcat(ys + "/" + ms + "/", ds);
    NormalizeInputConcat(ys + "/" + ms, "/");
    NormalizeInputConcat(ys + "/", ms);
    NormalizeInputConcat(ys, "/");
    NormalizeInputDigits(ys);
    NormalizeInputDigits(ms);
    NormalizeInputDigits(ds);
    assert NormalizeInputDate("/") == "-" by {
      assert "/"[1..] == [];
    }
  }

  lemma TrimmedNonEmptyOfDigits(a: string, b: string, c: string)
    requires a != [] && b != [] && c != [] && AllDigits(a) && AllDigits(b) && AllDigits(c)
    ensures TrimmedNonEmpty([a, b, c]) == [a, b, c]
  {
    assert IsDigit(a[0]) && IsDigit(a[|a| - 1]) && IsDigit(b[0]) && IsDigit(b[|b| - 1]);
    assert IsDigit(c[0]) && IsDigit(c[|c| - 1]);
    TrimOfTrimmed(a);
    TrimOfTrimmed(b);
    TrimOfTrimmed(c);
    assert [a, b, c][1..] == [b, c] && [b, c][1..] == [c] && [c][1..] == [];
    assert TrimmedNonEmpty([c]) == [c];
    assert TrimmedNonEmpty([b, c]) == [b] + TrimmedNonEmpty([c]);
    assert TrimmedNonEmpty([a, b, c]) == [a] + TrimmedNonEmpty([b, c]);
  }

  /** A `YYYY/MM/DD` text of digits is shown as `YYYY-MM-DD`. */
  lemma ForInputOfDigitTriple(ys: string, ms: string, ds: string)
    requires |ys| == 4 && |ms| == 2 && |ds| == 2 && AllDigits(ys) && AllDigits(ms) && AllDigits(ds)
    ensures FormatDateForInput(ys + "/" + ms + "/" + ds) == ys + "-" + ms + "-" + ds
  {
    var s := ys + "/" + ms + "/" + ds;
    assert |s| == 10;
    DigitsNormalizedForInput(ys, ms, ds);
    SplitDigitTriple(ys, ms, ds, '-');
    TrimmedNonEmptyOfDigits(ys, ms, ds);
    ForInputOfParts(s, ys, ms, ds);
  }

  /** A value whose parts are a four-character year and two-character month and day is shown joined by '-'. */
  lemma ForInputOfParts(value: string, ys: string, ms: string, ds: string)
    requires |value| == 10 && |ys| == 4 && |ms| == 2 && |ds| == 2
    requires TrimmedNonEmpty(Split(NormalizeInputDate(value), '-')) == [ys, ms, ds]
    ensures FormatDateForInput(value) == ys + "-" + ms + "-" + ds
  {
    assert PadStart2(ms) == ms && PadStart2(ds) == ds;
    assert (ys + "-") + (ms + "-" + ds) == ys + "-" + ms + "-" + ds;
  }

  lemma SliceDateText(ys: string, ms: string, ds: string)
    requires |ys| == 4 && |ms| == 2 && |ds| == 2
    ensures var s := ys + "/" + ms + "/" + ds;
      s[..4] == ys && s[5..7] == ms && s[8..] == ds
  {
    var s := ys + "/" + ms + "/" + ds;
    assert s == ys + ("/" + ms + "/" + ds);
    assert ("/" + ms + "/" + ds)[1..3] == ms;
  }

  /** The date input shows a stored `YYYY/MM/DD` date, and writing it back restores that text. */
  lemma FormattedDateThroughInput(n: int)
    requires 1000 <= CivilFromDays(n).year <= 9999
    ensures var s := FormatSlashDate(n);
      |s| == 10 && FormatDateForInput(s) == s[..4] + "-" + s[5..7] + "-" + s[8..]
    ensures FormatDateFromInput(FormatDateForInput(FormatSlashDate(n))) == FormatSlashDate(n)
  {
    var ys, ms, ds := FourDigitSlashDate(n);
    ForInputOfDigitTriple(ys, ms, ds);
    SliceDateText(ys, ms, ds);
    assert '-' !in ys && '-' !in ms && '-' !in ds;
    FromInputOfDashTriple(ys, ms, ds);
  }
}
