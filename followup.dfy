/**
 * The follow-up scheduling rule that both the dashboard and the notification check apply:
 * a day offset chosen from the next-action label, added to the last contact day, and moved
 * forward from today when the result would already lie in the past.
 */
module FollowUp {
  import opened Wrappers
  import opened Text
  import opened Calendar

  const Recontact := "リコンタクト"
  const FollowUpAction := "フォローアップ"
  const NewProposal := "新規提案"
  const Remind := "リマインド"
  const Closing := "クロージング"
  const Done := "完了"
  const Unset := "未設定"
  const InTrade := "取引中"
  const RepeatProposal := "リピート提案"

  /** An action that schedules nothing: empty or the unset marker. */
  predicate IsUnsetAction(action: string) {
    action == "" || action == Unset
  }

  /**
   * The day offset of an action label: the first keyword the label contains decides;
   * a label with 完了 and none of the keywords gets none; any other label gets 14.
   */
  function ActionOffset(action: string): Option<nat> {
    if Contains(action, Recontact) then Some(5)
    else if Contains(action, FollowUpAction) then Some(9)
    else if Contains(action, NewProposal) then Some(14)
    else if Contains(action, Remind) then Some(14)
    else if Contains(action, Closing) then Some(7)
    else if Contains(action, Done) then None
    else Some(14)
  }

  /** The keyword table, in priority order. */
  const OffsetTable: seq<(string, nat)> :=
    [(Recontact, 5), (FollowUpAction, 9), (NewProposal, 14), (Remind, 14), (Closing, 7)]

  /** The offset of the first table entry whose keyword the label contains. */
  function FirstKeywordOffset(action: string, table: seq<(string, nat)>): Option<nat> {
    if table == [] then None
    else if Contains(action, table[0].0) then Some(table[0].1)
    else FirstKeywordOffset(action, table[1..])
  }

  /** The chain of tests is the first-match lookup in the keyword table, with 完了 and the default 14 after it. */
  lemma ActionOffsetIsTableLookup(action: string)
    ensures ActionOffset(action) ==
      match FirstKeywordOffset(action, OffsetTable)
      case Some(o) => Some(o)
      case None => if Contains(action, Done) then None else Some(14)
  {
    var t: seq<(string, nat)> := OffsetTable;
    assert t[1..] == [(FollowUpAction, 9), (NewProposal, 14), (Remind, 14), (Closing, 7)];
    assert t[2..] == [(NewProposal, 14), (Remind, 14), (Closing, 7)];
    assert t[3..] == [(Remind, 14), (Closing, 7)];
    assert t[4..] == [(Closing, 7)];
    assert t[5..] == [];
    assert t[1..][1..] == t[2..] && t[2..][1..] == t[3..] && t[3..][1..] == t[4..] && t[4..][1..] == t[5..];
    assert FirstKeywordOffset(action, t[5..]) == None;
    assert FirstKeywordOffset(action, t[4..]) == if Contains(action, Closing) then Some(7) else None;
    assert FirstKeywordOffset(action, t[3..]) ==
      if Contains(action, Remind) then Some(14) else FirstKeywordOffset(action, t[4..]);
    assert FirstKeywordOffset(action, t[2..]) ==
      if Contains(action, NewProposal) then Some(14) else FirstKeywordOffset(action, t[3..]);
    assert FirstKeywordOffset(action, t[1..]) ==
      if Contains(action, FollowUpAction) then Some(9) else FirstKeywordOffset(action, t[2..]);
    assert FirstKeywordOffset(action, t) ==
      if Contains(action, Recontact) then Some(5) else FirstKeywordOffset(action, t[1..]);
  }

  /** Offsets are between 5 and 14 days, and a label with no keyword and no 完了 gets 14. */
  lemma ActionOffsetBounds(action: string)
    ensures ActionOffset(action).Some? ==> 5 <= ActionOffset(action).value <= 14
    ensures ActionOffset(action).None? <==> FirstKeywordOffset(action, OffsetTable).None? && Contains(action, Done)
  {
    ActionOffsetIsTableLookup(action);
  }

  /**
   * `setDate(getDate() + offset)` on the last contact day, then `setTime` to `today + offset`
   * when that midnight is already before the moment `now`. An Invalid Date stays invalid
   * (it is returned as it is), and comparing one with `now` is false, so it is never moved.
   */
  function FollowUpDay(lastDay: int, offset: nat, now: Now): (d: int)
    ensures !ValidDay(lastDay) ==> d == lastDay
    ensures ValidDay(lastDay) && !MidnightBefore(lastDay + offset, now) ==> d == lastDay + offset
    ensures ValidDay(lastDay) && MidnightBefore(lastDay + offset, now) ==> d == now.today + offset
    ensures ValidDay(lastDay) ==> d >= now.today && (offset > 0 ==> !MidnightBefore(d, now))
    ensures ValidDay(d) <==> ValidDay(lastDay) && d <= MaxDay
  {
    if !ValidDay(lastDay) then lastDay
    else
      var candidate := lastDay + offset;
      if ValidDay(candidate) && MidnightBefore(candidate, now) then now.today + offset else candidate
  }

  /**
   * The scheduled day of an action label given the parsed last contact day:
   * none for an unset action, a missing day, or a finished action.
   */
  function ScheduledDay(action: string, lastDay: Option<int>, now: Now): Option<int> {
    if IsUnsetAction(action) then None
    else match lastDay
      case None => None
      case Some(day) =>
        match ActionOffset(action)
        case None => None
        case Some(offset) => Some(FollowUpDay(day, offset, now))
  }

  /** The scheduled day of a known offset and a parsed last contact day. */
  lemma ScheduledDayOfOffset(action: string, lastDay: int, offset: nat, now: Now)
    requires !IsUnsetAction(action) && ActionOffset(action) == Some(offset)
    ensures ScheduledDay(action, Some(lastDay), now) == Some(FollowUpDay(lastDay, offset, now))
  {
  }

  /**
   * When a day is scheduled from a valid last contact date, it is never before today and
   * comes from the label's offset; it is a valid date exactly when it does not pass the end
   * of the range of `Date`. An invalid last contact date stays invalid.
   */
  lemma ScheduledDayShape(action: string, lastDay: Option<int>, now: Now)
    ensures ScheduledDay(action, lastDay, now).None? <==>
      IsUnsetAction(action) || lastDay.None? || ActionOffset(action).None?
    ensures ScheduledDay(action, lastDay, now).Some? && ValidDay(lastDay.value) ==>
      var d := ScheduledDay(action, lastDay, now).value;
      var offset := ActionOffset(action).value;
      && !MidnightBefore(d, now)
      && (d == lastDay.value + offset || d == now.today + offset)
      && (d == now.today + offset <== MidnightBefore(lastDay.value + offset, now))
      && (ValidDay(d) <==> d <= MaxDay)
    ensures ScheduledDay(action, lastDay, now).Some? && !ValidDay(lastDay.value) ==>
      ScheduledDay(action, lastDay, now).value == lastDay.value
  {
    if ScheduledDay(action, lastDay, now).Some? {
      ActionOffsetBounds(action);
    }
  }

  /** With the last contact today, the schedule is today plus the label's offset. */
  lemma ContactTodayGivesOffset(action: string, now: Now)
    requires !IsUnsetAction(action) && ActionOffset(action).Some?
    ensures ScheduledDay(action, Some(now.today), now) == Some(now.today + ActionOffset(action).value)
  {
    ActionOffsetBounds(action);
  }

  /** An overdue schedule from a valid last contact date moves forward from today instead of staying in the past. */
  lemma OverdueSnapsForward(action: string, lastDay: int, now: Now)
    requires !IsUnsetAction(action) && ActionOffset(action).Some? && ValidDay(lastDay)
    requires lastDay + ActionOffset(action).value < now.today
    ensures ScheduledDay(action, Some(lastDay), now) == Some(now.today + ActionOffset(action).value)
  {
  }
}
