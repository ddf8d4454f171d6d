/**
 * The dashboard and the notification check each parse the last contact date with their own
 * parser. Where both accept a text they agree on the day; the forms only one accepts are named.
 */
module DateAgreement {
  import opened Wrappers
  import opened Text
  import opened Calendar
  import opened FollowUp
  import opened ContactDates
  import opened RouteDates

  /** A text of digits and separators only. */
  predicate DigitsAndSeps(t: string) {
    forall i :: 0 <= i < |t| ==> IsDigit(t[i]) || IsSep(t[i])
  }

  lemma DigitsAndSepsAppend(a: string, b: string)
    requires DigitsAndSeps(a) || AllDigits(a)
    requires DigitsAndSeps(b) || AllDigits(b) || (|b| == 1 && IsSep(b[0]))
    ensures DigitsAndSeps(a + b)
  {
    assert forall i :: 0 <= i < |b| ==> (a + b)[|a| + i] == b[i];
  }

  /** Digits and separators are left alone by the dashboard's normaliser. */
  lemma DigitsAndSepsNormalized(t: string)
    requires DigitsAndSeps(t) && t != [] && IsDigit(t[0])
    ensures ParseLastContactDate(t) == DateOfNormalized(t)
  {
    NormalizeUnmarked(t);
    assert t != Unset by {
      assert !IsDigit(Unset[0]);
    }
  }

  lemma MonthDayShape(t: string)
    requires MatchMonthDay(t).Some?
    ensures var (a, b) := MatchMonthDay(t).value;
      t == a + [t[|a|]] + b && IsSep(t[|a|]) && OneOrTwoDigits(a) && OneOrTwoDigits(b)
  {
    var (a, b) := MatchMonthDay(t).value;
    assert t == t[..|a|] + [t[|a|]] + t[|a| + 1..];
  }

  lemma FullDateShape(t: string)
    requires MatchFullDate(t).Some?
    ensures var (y, m, d) := MatchFullDate(t).value;
      && t == y + [t[4]] + m + [t[5 + |m|]] + d
      && IsSep(t[4]) && IsSep(t[5 + |m|]) && |y| == 4 && AllDigits(y) && OneOrTwoDigits(m) && OneOrTwoDigits(d)
  {
    var (y, m, d) := MatchFullDate(t).value;
    MonthDayShape(t[5..]);
    assert t[5..][|m|] == t[5 + |m|];
    assert t == t[..4] + [t[4]] + t[5..];
  }

  lemma SepOnlySlash(c: char)
    requires IsSep(c) && c != '/'
    ensures c == '-'
  {
  }

  lemma DigitsHaveNoSlash(s: string)
    requires AllDigits(s)
    ensures '/' !in s
  {
  }

  /** The dashboard reads a full form only when both separators are '/'. */
  lemma DashboardOnFullForm(y: string, c1: char, m: string, c2: char, d: string)
    requires |y| == 4 && AllDigits(y) && IsSep(c1) && OneOrTwoDigits(m) && IsSep(c2) && OneOrTwoDigits(d)
    ensures ParseLastContactDate(y + [c1] + m + [c2] + d) ==
      if c1 == '/' && c2 == '/' then DateOfNumbers(Some(DigitsValue(y)), Some(DigitsValue(m)), Some(DigitsValue(d)))
      else None
  {
    var t := y + [c1] + m + [c2] + d;
    FullFormNormalized(y, c1, m, c2, d, t);
    if c1 == '/' && c2 == '/' {
      SlashFormNumbers(y, m, d, t);
    } else {
      DashedFormUnread(y, c1, m, c2, d, t);
    }
  }

  /** A full form holds only digits and separators, so the dashboard's marker step leaves it alone. */
  lemma FullFormNormalized(y: string, c1: char, m: string, c2: char, d: string, t: string)
    requires |y| == 4 && AllDigits(y) && IsSep(c1) && OneOrTwoDigits(m) && IsSep(c2) && OneOrTwoDigits(d)
    requires t == y + [c1] + m + [c2] + d
    ensures ParseLastContactDate(t) == DateOfNormalized(t)
  {
    DigitsAndSepsAppend(y, [c1]);
    DigitsAndSepsAppend(y + [c1], m);
    DigitsAndSepsAppend(y + [c1] + m, [c2]);
    DigitsAndSepsAppend(y + [c1] + m + [c2], d);
    assert t[0] == y[0];
    DigitsAndSepsNormalized(t);
  }

  /** `Y/M/D` in digits splits into its three numbers. */
  lemma SlashFormNumbers(y: string, m: string, d: string, t: string)
    requires |y| == 4 && AllDigits(y) && OneOrTwoDigits(m) && OneOrTwoDigits(d)
    requires t == y + ['/'] + m + ['/'] + d
    ensures DateOfNormalized(t) == DateOfNumbers(Some(DigitsValue(y)), Some(DigitsValue(m)), Some(DigitsValue(d)))
  {
    DigitsHaveNoSlash(y);
    DigitsHaveNoSlash(m);
    DigitsHaveNoSlash(d);
    DateOfTriple(y, m, d);
    assert y + "/" + m + "/" + d == t;
    ParseIntDigits(y);
    ParseIntDigits(m);
    ParseIntDigits(d);
  }

  /** A full form with a '-' separator splits on '/' into fewer than three parts. */
  lemma DashedFormUnread(y: string, c1: char, m: string, c2: char, d: string, t: string)
    requires |y| == 4 && AllDigits(y) && IsSep(c1) && OneOrTwoDigits(m) && IsSep(c2) && OneOrTwoDigits(d)
    requires t == y + [c1] + m + [c2] + d && !(c1 == '/' && c2 == '/')
    ensures DateOfNormalized(t) == None
  {
    DigitsHaveNoSlash(y);
    DigitsHaveNoSlash(m);
    DigitsHaveNoSlash(d);
    if c1 == '/' {
      SepOnlySlash(c2);
      var rest := m + [c2] + d;
      assert '/' !in rest by {
        assert rest == m + ['-'] + d;
      }
      assert t == y + ['/'] + rest;
      SplitFirstSeparator(y, '/', rest);
      SplitNoSeparator(rest, '/');
    } else if c2 == '/' {
      SepOnlySlash(c1);
      var head := y + [c1] + m;
      assert '/' !in head by {
        assert head == y + ['-'] + m;
      }
      assert t == head + ['/'] + d;
      SplitFirstSeparator(head, '/', d);
      SplitNoSeparator(d, '/');
    } else {
      SepOnlySlash(c1);
      SepOnlySlash(c2);
      assert '/' !in t by {
        assert t == y + ['-'] + m + ['-'] + d;
      }
      SplitNoSeparator(t, '/');
    }
  }

  /** The dashboard never reads the short form `M/D`: it needs three parts. */
  lemma DashboardRejectsShortForm(m: string, c: char, d: string)
    requires OneOrTwoDigits(m) && IsSep(c) && OneOrTwoDigits(d)
    ensures ParseLastContactDate(m + [c] + d).None?
  {
    var t := m + [c] + d;
    DigitsAndSepsAppend(m, [c]);
    DigitsAndSepsAppend(m + [c], d);
    assert t[0] == m[0];
    DigitsAndSepsNormalized(t);
    DigitsHaveNoSlash(m);
    DigitsHaveNoSlash(d);
    if c == '/' {
      SplitFirstSeparator(m, '/', d);
      SplitNoSeparator(d, '/');
    } else {
      SepOnlySlash(c);
      assert '/' !in t by {
        assert t == m + ['-'] + d;
      }
      SplitNoSeparator(t, '/');
    }
  }

  /**
   * Wherever both parsers accept a text they give the same day, and that text is a full date
   * written with '/'.
   */
  lemma ParsersAgree(s: string, now: Now)
    requires ParseDate(s, now).Some? && ParseLastContactDate(s).Some?
    ensures ParseDate(s, now) == ParseLastContactDate(s)
    ensures MatchFullDate(s).Some? && s[4] == '/'
  {
    if MatchFullDate(s).Some? {
      FullMatchAgree(s, now);
    } else {
      var (m, d) := MatchMonthDay(s).value;
      MonthDayShape(s);
      DashboardRejectsShortForm(m, s[|m|], d);
      assert false;
    }
  }

  /** A full-date match the dashboard also reads is written with '/' and read alike. */
  lemma FullMatchAgree(s: string, now: Now)
    requires MatchFullDate(s).Some? && ParseLastContactDate(s).Some?
    ensures s[4] == '/' && ParseDate(s, now) == ParseLastContactDate(s)
  {
    var (y, m, d) := MatchFullDate(s).value;
    FullDateShape(s);
    var c1, c2 := s[4], s[5 + |m|];
    FullFormNormalized(y, c1, m, c2, d, s);
    if c1 == '/' && c2 == '/' {
      SlashMatchAgree(s, y, m, d, now);
    } else {
      DashedFormUnread(y, c1, m, c2, d, s);
      assert false;
    }
  }

  lemma SlashMatchAgree(s: string, y: string, m: string, d: string, now: Now)
    requires |y| == 4 && AllDigits(y) && OneOrTwoDigits(m) && OneOrTwoDigits(d)
    requires s == y + ['/'] + m + ['/'] + d && MatchFullDate(s) == Some((y, m, d))
    requires ParseLastContactDate(s) == DateOfNormalized(s) && ParseLastContactDate(s).Some?
    ensures ParseDate(s, now) == ParseLastContactDate(s)
  {
    SlashFormNumbers(y, m, d, s);
    DateOfSomeNumbers(ParseLastContactDate(s), DigitsValue(y), DigitsValue(m), DigitsValue(d));
    ParseDateOfFullMatch(s, y, m, d, now);
    FullDateDayOf(y, m, d);
    assert FullDateDay((y, m, d)) == MakeDay(DigitsValue(y), DigitsValue(m) - 1, DigitsValue(d));
    var k := MakeDay(DigitsValue(y), DigitsValue(m) - 1, DigitsValue(d));
    assert ParseLastContactDate(s) == Some(k);
    assert ParseDate(s, now) == Some(FullDateDay((y, m, d)));
    assert FullDateDay((y, m, d)) == k;
    SameSome(ParseLastContactDate(s), ParseDate(s, now), k, FullDateDay((y, m, d)));
  }

  lemma SameSome(a: Option<int>, b: Option<int>, k: int, j: int)
    requires a == Some(k) && b == Some(j) && j == k
    ensures b == a
  {
  }

  lemma DateOfSomeNumbers(a: Option<int>, year: int, month: int, day: int)
    requires a.Some? && a == DateOfNumbers(Some(year), Some(month), Some(day))
    ensures a == Some(MakeDay(year, month - 1, day))
  {
  }

  /** A full `Y/M/D` date with non-zero parts inside the range of `Date` is read alike by both. */
  lemma BothAcceptSlashDate(y: string, m: string, d: string, now: Now)
    requires |y| == 4 && AllDigits(y) && OneOrTwoDigits(m) && OneOrTwoDigits(d)
    requires DigitsValue(y) != 0 && DigitsValue(m) != 0 && DigitsValue(d) != 0
    requires -MaxDay <= MakeDay(DigitsValue(y), DigitsValue(m) - 1, DigitsValue(d)) <= MaxDay
    ensures ParseLastContactDate(y + "/" + m + "/" + d) == ParseDate(y + "/" + m + "/" + d, now)
    ensures ParseDate(y + "/" + m + "/" + d, now) == Some(MakeDay(DigitsValue(y), DigitsValue(m) - 1, DigitsValue(d)))
  {
    assert y + "/" + m + "/" + d == y + ['/'] + m + ['/'] + d;
    DashboardOnFullForm(y, '/', m, '/', d);
    ParseFullDate(y, '/', m, '/', d, now);
  }

  /** The notification check also reads `-` separators and the short form; the dashboard reads neither. */
  lemma OnlyRouteReadsDashesAndShortForm(y: string, m: string, d: string, now: Now)
    requires |y| == 4 && AllDigits(y) && OneOrTwoDigits(m) && OneOrTwoDigits(d)
    ensures ParseDate(y + "-" + m + "-" + d, now).Some? && ParseLastContactDate(y + "-" + m + "-" + d).None?
    ensures ParseDate(m + "/" + d, now).Some? && ParseLastContactDate(m + "/" + d).None?
  {
    assert y + "-" + m + "-" + d == y + ['-'] + m + ['-'] + d;
    DashboardOnFullForm(y, '-', m, '-', d);
    ParseFullDate(y, '-', m, '-', d, now);
    assert m + "/" + d == m + ['/'] + d;
    DashboardRejectsShortForm(m, '/', d);
    ParseShortDate(m, '/', d, now);
  }

  /** The dashboard reads the Japanese form `Y年M月D日`; the notification check does not. */
  lemma OnlyDashboardReadsJapaneseForm(y: string, m: string, d: string, now: Now)
    requires |y| == 4 && AllDigits(y) && OneOrTwoDigits(m) && OneOrTwoDigits(d)
    requires DigitsValue(y) != 0 && DigitsValue(m) != 0 && DigitsValue(d) != 0
    requires -MaxDay <= MakeDay(DigitsValue(y), DigitsValue(m) - 1, DigitsValue(d)) <= MaxDay
    ensures ParseLastContactDate(y + "年" + m + "月" + d + "日") == Some(MakeDay(DigitsValue(y), DigitsValue(m) - 1, DigitsValue(d)))
    ensures ParseDate(y + "年" + m + "月" + d + "日", now).None?
  {
    DigitsUnmarked(y);
    DigitsUnmarked(m);
    DigitsUnmarked(d);
    JapaneseFormIsSlashForm(y, m, d);
    BothAcceptSlashDate(y, m, d, now);
    JapaneseFormRejectedByRoute(y, m, d, now);
  }

  lemma JapaneseFormRejectedByRoute(y: string, m: string, d: string, now: Now)
    requires |y| == 4
    ensures ParseDate(y + "年" + m + "月" + d + "日", now).None?
  {
    var head := y + "年";
    var body := head + m + "月" + d;
    assert head[4] == '年';
    assert (body + "日")[4] == head[4];
    assert (body + "日")[|body|] == '日';
    RouteRejectsMarkers(body + "日", now);
  }

  /** A text whose fifth and last characters are not digits is no date to the notification check. */
  lemma RouteRejectsMarkers(t: string, now: Now)
    requires |t| >= 5 && !IsSep(t[4]) && !IsDigit(t[|t| - 1])
    ensures ParseDate(t, now).None?
  {
  }
}
