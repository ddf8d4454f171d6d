/**
 * The notification check's date handling: its strict date parser, the one-day window test and
 * its copy of the follow-up rule.
 */
module RouteDates {
  import opened Wrappers
  import opened Text
  import opened Calendar
  import opened Types
  import opened FollowUp

  /** The character class `[\/\-]`. */
  predicate IsSep(c: char) {
    c == '/' || c == '-'
  }

  /** `\d{1,2}` matching a whole string. */
  predicate OneOrTwoDigits(t: string) {
    1 <= |t| <= 2 && AllDigits(t)
  }

  /** The groups of `^(\d{1,2})[\/\-](\d{1,2})$` in `t`, if it matches. */
  function MatchMonthDay(t: string): (r: Option<(string, string)>)
    ensures r.Some? ==>
      var (a, b) := r.value;
      && OneOrTwoDigits(a) && OneOrTwoDigits(b) && |t| == |a| + 1 + |b|
      && t[..|a|] == a && IsSep(t[|a|]) && t[|a| + 1..] == b
  {
    if |t| >= 3 && IsDigit(t[0]) && IsSep(t[1]) && OneOrTwoDigits(t[2..]) then Some((t[..1], t[2..]))
    else if |t| >= 4 && IsDigit(t[0]) && IsDigit(t[1]) && IsSep(t[2]) && OneOrTwoDigits(t[3..]) then
      Some((t[..2], t[3..]))
    else None
  }

  /** The groups of `^(\d{4})[\/\-](\d{1,2})[\/\-](\d{1,2})$` in `t`, if it matches. */
  function MatchFullDate(t: string): (r: Option<(string, string, string)>)
    ensures r.Some? ==>
      var (y, m, d) := r.value;
      && |t| >= 5 && |y| == 4 && AllDigits(y) && IsSep(t[4]) && t[..4] == y
      && MatchMonthDay(t[5..]) == Some((m, d))
  {
    if |t| >= 5 && AllDigits(t[..4]) && IsSep(t[4]) then
      match MatchMonthDay(t[5..])
      case Some((m, d)) => Some((t[..4], m, d))
      case None => None
    else None
  }

  /** Every text of the shape `M/D` is recognised, with its two groups. */
  lemma MatchMonthDayComplete(a: string, c: char, b: string)
    requires OneOrTwoDigits(a) && IsSep(c) && OneOrTwoDigits(b)
    ensures MatchMonthDay(a + [c] + b) == Some((a, b))
  {
    var t := a + [c] + b;
    assert t[..|a|] == a && t[|a|] == c && t[|a| + 1..] == b;
  }

  /** Every text of the shape `YYYY/M/D` is recognised, with its three groups. */
  lemma MatchFullDateComplete(y: string, c1: char, m: string, c2: char, d: string)
    requires |y| == 4 && AllDigits(y) && IsSep(c1) && OneOrTwoDigits(m) && IsSep(c2) && OneOrTwoDigits(d)
    ensures MatchFullDate(y + [c1] + m + [c2] + d) == Some((y, m, d))
  {
    var t := y + [c1] + m + [c2] + d;
    assert t[..4] == y && t[4] == c1;
    assert t[5..] == m + [c2] + d;
    MatchMonthDayComplete(m, c2, d);
  }

  /** A full date never has the short shape, so the order in which the two patterns are tried does not matter. */
  lemma PatternsExclusive(t: string)
    ensures !(MatchFullDate(t).Some? && MatchMonthDay(t).Some?)
  {
  }

  /**
   * `parseDate`: '' and '-' are no date; `YYYY/M/D` (or with '-') is that local date; `M/D` is that
   * date in the current year; anything else is no date. Month and day overflow carry as in `Date`.
   */
  function ParseDate(s: string, now: Now): (r: Option<int>)
    ensures s == "" || s == "-" ==> r.None?
    ensures r.Some? <==> MatchFullDate(s).Some? || MatchMonthDay(s).Some?
  {
    if s == "" || s == "-" then None
    else if MatchFullDate(s).Some? then Some(FullDateDay(MatchFullDate(s).value))
    else if MatchMonthDay(s).Some? then Some(ShortDateDay(MatchMonthDay(s).value, now))
    else None
  }

  /** The day of the groups of a full date: `new Date(year, month - 1, day)`. */
  function FullDateDay(groups: (string, string, string)): int
    requires AllDigits(groups.0) && AllDigits(groups.1) && AllDigits(groups.2)
  {
    MakeDay(DigitsValue(groups.0), DigitsValue(groups.1) - 1, DigitsValue(groups.2))
  }

  /** The day of the groups of a short date: `new Date(currentYear, month - 1, day)`. */
  function ShortDateDay(groups: (string, string), now: Now): int
    requires AllDigits(groups.0) && AllDigits(groups.1)
  {
    MakeDay(CurrentYear(now), DigitsValue(groups.0) - 1, DigitsValue(groups.1))
  }

  /** A recognised full date reads through `new Date(y, m - 1, d)`. */
  lemma ParseDateOfFullMatch(t: string, y: string, m: string, d: string, now: Now)
    requires |t| >= 5 && MatchFullDate(t) == Some((y, m, d))
    ensures ParseDate(t, now) == Some(FullDateDay((y, m, d)))
  {
    assert t != "" && t != "-";
  }

  lemma FullDateDayOf(y: string, m: string, d: string)
    requires AllDigits(y) && AllDigits(m) && AllDigits(d)
    ensures FullDateDay((y, m, d)) == MakeDay(DigitsValue(y), DigitsValue(m) - 1, DigitsValue(d))
  {
  }

  /** `YYYY/M/D` (either separator) reads as `new Date(YYYY, M - 1, D)`. */
  lemma ParseFullDate(y: string, c1: char, m: string, c2: char, d: string, now: Now)
    requires |y| == 4 && AllDigits(y) && IsSep(c1) && OneOrTwoDigits(m) && IsSep(c2) && OneOrTwoDigits(d)
    ensures ParseDate(y + [c1] + m + [c2] + d, now) == Some(MakeDay(DigitsValue(y), DigitsValue(m) - 1, DigitsValue(d)))
  {
    var t := y + [c1] + m + [c2] + d;
    MatchFullDateComplete(y, c1, m, c2, d);
    ParseDateOfFullMatch(t, y, m, d, now);
    FullDateDayOf(y, m, d);
  }

  /** `M/D` (either separator) reads as `new Date(currentYear, M - 1, D)`. */
  lemma ParseShortDate(m: string, c: char, d: string, now: Now)
    requires OneOrTwoDigits(m) && IsSep(c) && OneOrTwoDigits(d)
    ensures ParseDate(m + [c] + d, now) == Some(MakeDay(CurrentYear(now), DigitsValue(m) - 1, DigitsValue(d)))
  {
    MatchMonthDayComplete(m, c, d);
    PatternsExclusive(m + [c] + d);
    assert |m + [c] + d| >= 3;
  }

  /** A date printed as `YYYY/MM/DD` parses back to the same day. */
  lemma ParseFormattedDate(n: int, now: Now)
    requires 1000 <= CivilFromDays(n).year <= 9999
    ensures ParseDate(FormatSlashDate(n), now) == Some(n)
  {
    ParseFormattedCivil(CivilFromDays(n), now);
  }

  /** A calendar date with a four-digit year, printed as `YYYY/MM/DD`, parses back to its day. */
  lemma ParseFormattedCivil(c: Civil, now: Now)
    requires ValidCivil(c) && 1000 <= c.year <= 9999
    ensures ParseDate(FormatCivil(c), now) == Some(DaysFromCivil(c))
  {
    var ys, ms, ds := FourDigitCivil(c);
    assert MakeDay(DigitsValue(ys), DigitsValue(ms) - 1, DigitsValue(ds)) == DaysFromCivil(c);
    ParseTextOfTriple(FormatCivil(c), ys, ms, ds, DaysFromCivil(c), now);
  }

  lemma ParseTextOfTriple(t: string, ys: string, ms: string, ds: string, n: int, now: Now)
    requires t == ys + "/" + ms + "/" + ds
    requires |ys| == 4 && |ms| == 2 && |ds| == 2 && AllDigits(ys) && AllDigits(ms) && AllDigits(ds)
    requires MakeDay(DigitsValue(ys), DigitsValue(ms) - 1, DigitsValue(ds)) == n
    ensures ParseDate(t, now) == Some(n)
  {
    ParseSlashTriple(ys, ms, ds, now);
  }

  lemma ParseSlashTriple(ys: string, ms: string, ds: string, now: Now)
    requires |ys| == 4 && |ms| == 2 && |ds| == 2 && AllDigits(ys) && AllDigits(ms) && AllDigits(ds)
    ensures ParseDate(ys + "/" + ms + "/" + ds, now) == Some(MakeDay(DigitsValue(ys), DigitsValue(ms) - 1, DigitsValue(ds)))
  {
    SlashText(ys, ms, ds);
    ParseFullDate(ys, '/', ms, '/', ds, now);
  }

  lemma SlashText(ys: string, ms: string, ds: string)
    ensures ys + "/" + ms + "/" + ds == ys + ['/'] + ms + ['/'] + ds
  {
  }

  /**
   * `isWithinDays(date, days)`: the calendar-day distance from today lies in `0..days`.
   * For an Invalid Date the distance is NaN and both comparisons are false.
   */
  predicate IsWithinDays(day: int, days: int, now: Now) {
    ValidDay(day) && 0 <= day - now.today <= days
  }

  /** The route's scheduled day: the shared rule applied to the strictly parsed last contact date. */
  function ComputedDay(customer: CustomerRecord, now: Now): Option<int> {
    ScheduledDay(customer.nextAction, ParseDate(customer.lastContactDate, now), now)
  }

  /** `calculateScheduledDate` in the notification check. */
  method CalculateScheduledDate(customer: CustomerRecord, now: Now) returns (r: Option<int>)
    ensures r == ComputedDay(customer, now)
  {
    var nextAction := customer.nextAction;
    if nextAction == "" || nextAction == Unset {
      return None;
    }
    var lastDate := ParseDate(customer.lastContactDate, now);
    r := ScheduleFrom(nextAction, lastDate, now);
  }

  /** The rest of `calculateScheduledDate` once the last contact date has been parsed. */
  method ScheduleFrom(nextAction: string, lastDate: Option<int>, now: Now) returns (r: Option<int>)
    requires !IsUnsetAction(nextAction)
    ensures r == ScheduledDay(nextAction, lastDate, now)
  {
    if lastDate.None? {
      return None;
    }
    var offset := DaysToAdd(nextAction);
    if offset.None? {
      return None;
    }
    var daysToAdd := offset.value;
    var scheduledDate := lastDate.value;
    // `setDate` changes a valid day only; past the end of the range the date becomes invalid
    if ValidDay(scheduledDate) {
      scheduledDate := scheduledDate + daysToAdd;
    }
    // an Invalid Date is never `< now`
    if ValidDay(scheduledDate) && MidnightBefore(scheduledDate, now) {
      scheduledDate := now.today + daysToAdd;
    }
    ScheduledDayOfOffset(nextAction, lastDate.value, daysToAdd, now);
    r := Some(scheduledDate);
  }

  /** The offset chain of `calculateScheduledDate`: the first keyword the label contains decides. */
  method DaysToAdd(nextAction: string) returns (daysToAdd: Option<nat>)
    ensures daysToAdd == ActionOffset(nextAction)
  {
    if Contains(nextAction, Recontact) {
      daysToAdd := Some(5);
    } else if Contains(nextAction, FollowUpAction) {
      daysToAdd := Some(9);
    } else if Contains(nextAction, NewProposal) {
      daysToAdd := Some(14);
    } else if Contains(nextAction, Remind) {
      daysToAdd := Some(14);
    } else if Contains(nextAction, Closing) {
      daysToAdd := Some(7);
    } else if Contains(nextAction, Done) {
      daysToAdd := None;
    } else {
      daysToAdd := Some(14);
    }
  }

  /**
   * A computed day inside the one-day window was never moved forward: it is the last contact
   * day plus the offset. Once today has begun it can only be tomorrow, never today.
   */
  lemma ComputedDayInWindow(customer: CustomerRecord, now: Now)
    requires ComputedDay(customer, now).Some? && IsWithinDays(ComputedDay(customer, now).value, 1, now)
    ensures var last := ParseDate(customer.lastContactDate, now);
      last.Some? && ActionOffset(customer.nextAction).Some?
      && ComputedDay(customer, now).value == last.value + ActionOffset(customer.nextAction).value
    ensures now.pastMidnight ==> ComputedDay(customer, now).value == now.today + 1
  {
    ActionOffsetBounds(customer.nextAction);
  }

  /**
   * A day moved forward from today is at least five days ahead, outside the one-day window;
   * an invalid last contact day stays invalid and is outside it too.
   */
  lemma SnappedDayOutsideWindow(customer: CustomerRecord, now: Now)
    requires ComputedDay(customer, now).Some?
    requires MidnightBefore(ParseDate(customer.lastContactDate, now).value + ActionOffset(customer.nextAction).value, now)
    ensures ValidDay(ParseDate(customer.lastContactDate, now).value) ==> ComputedDay(customer, now).value >= now.today + 5
    ensures !IsWithinDays(ComputedDay(customer, now).value, 1, now)
  {
    ActionOffsetBounds(customer.nextAction);
  }
}
