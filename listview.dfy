/**
 * The dashboard's list view: the combined filter, the value each sortable column compares, the
 * sort-direction toggle, and the summary figures over the shown list.
 */
module ListView {
  import opened Wrappers
  import opened Text
  import opened Calendar
  import opened Types
  import opened FollowUp
  import opened ContactDates
  import opened Amounts

  /** The filter controls: `None` for a tri-state control left at "any". */
  datatype Filters = Filters(
    action: string,
    search: string,
    favorite: Option<bool>,
    trouble: Option<bool>,
    gender: string,
    age: string,
    transactionMin: string)

  /** Every text field of a record, the values `Object.values(record)` yields as strings. */
  const TextFields: seq<TextField> :=
    [CustomerName, LastContactDate, NextAction, ScheduledDate, ContactUrl,
     TransactionCount, TotalAmount, Gender, Age, Notes]

  lemma TextFieldsComplete(g: TextField)
    ensures g in TextFields
  {
  }

  /** Some field among `fields`, lower-cased, contains `term`. */
  predicate AnyFieldContains(record: CustomerRecord, fields: seq<TextField>, term: string) {
    fields != [] && (Contains(ToLower(GetText(record, fields[0])), term) || AnyFieldContains(record, fields[1..], term))
  }

  lemma {:induction false} AnyFieldContainsIff(record: CustomerRecord, fields: seq<TextField>, term: string)
    ensures AnyFieldContains(record, fields, term) <==>
      exists g :: g in fields && Contains(ToLower(GetText(record, g)), term)
    decreases |fields|
  {
    if fields != [] {
      AnyFieldContainsIff(record, fields[1..], term);
      assert forall g :: g in fields <==> g == fields[0] || g in fields[1..];
    }
  }

  /** `searchTerm.trim().toLowerCase()` */
  function NormalizedSearch(search: string): string {
    ToLower(Trim(search))
  }

  /** The callback of `customerList.filter`, with its early returns. */
  predicate KeepRecord(record: CustomerRecord, f: Filters) {
    if !(f.action == "" || Contains(record.nextAction, f.action)) then false
    else if f.favorite.Some? && record.isFavorite != f.favorite.value then false
    else if f.trouble.Some? && record.hasTrouble != f.trouble.value then false
    else if f.gender != "" && record.gender != f.gender then false
    else if f.age != "" && record.age != f.age then false
    else if f.transactionMin != "" && ParseInt(f.transactionMin).Some?
      && ParseIntOrZero(record.transactionCount) < ParseInt(f.transactionMin).value then false
    else
      var term := NormalizedSearch(f.search);
      term == "" || AnyFieldContains(record, TextFields, term)
  }

  /** `filteredRecords` */
  function FilterRecords(records: seq<CustomerRecord>, f: Filters): (r: seq<CustomerRecord>)
    ensures |r| <= |records|
  {
    if records == [] then []
    else (if KeepRecord(records[0], f) then [records[0]] else []) + FilterRecords(records[1..], f)
  }

  /** The conditions each control imposes on its own. */
  predicate ActionPasses(record: CustomerRecord, f: Filters) {
    f.action == "" || Contains(record.nextAction, f.action)
  }

  predicate TagsPass(record: CustomerRecord, f: Filters) {
    (f.favorite == None || f.favorite == Some(record.isFavorite))
    && (f.trouble == None || f.trouble == Some(record.hasTrouble))
  }

  predicate ProfilePasses(record: CustomerRecord, f: Filters) {
    (f.gender == "" || record.gender == f.gender) && (f.age == "" || record.age == f.age)
  }

  /** A minimum that is no number excludes nothing; a count that is no number counts as 0. */
  predicate CountPasses(record: CustomerRecord, f: Filters) {
    match ParseInt(f.transactionMin)
    case None => true
    case Some(min) => ParseIntOrZero(record.transactionCount) >= min
  }

  /** A blank search matches all; otherwise some text field contains it, case aside; tags never match. */
  predicate SearchPasses(record: CustomerRecord, f: Filters) {
    var term := NormalizedSearch(f.search);
    term == "" || exists g :: Contains(ToLower(GetText(record, g)), term)
  }

  /** A record is kept exactly when every control lets it pass. */
  lemma KeepRecordIff(record: CustomerRecord, f: Filters)
    ensures KeepRecord(record, f) <==>
      ActionPasses(record, f) && TagsPass(record, f) && ProfilePasses(record, f)
      && CountPasses(record, f) && SearchPasses(record, f)
  {
    var term := NormalizedSearch(f.search);
    AnyFieldContainsIff(record, TextFields, term);
    forall g ensures g in TextFields {
      TextFieldsComplete(g);
    }
    assert f.transactionMin == "" ==> ParseInt(f.transactionMin).None?;
  }

  /** The filtered list holds exactly the kept records, in their order. */
  lemma {:induction false} FilterRecordsMembers(records: seq<CustomerRecord>, f: Filters, r: CustomerRecord)
    ensures r in FilterRecords(records, f) <==> r in records && KeepRecord(r, f)
    decreases |records|
  {
    if records != [] {
      FilterRecordsMembers(records[1..], f, r);
      assert records == [records[0]] + records[1..];
    }
  }

  /** Filtering twice with the same controls changes nothing. */
  lemma {:induction false} FilterRecordsIdempotent(records: seq<CustomerRecord>, f: Filters)
    ensures FilterRecords(FilterRecords(records, f), f) == FilterRecords(records, f)
    decreases |records|
  {
    if records != [] {
      FilterRecordsIdempotent(records[1..], f);
      if KeepRecord(records[0], f) {
        var r := FilterRecords(records, f);
        assert r == [records[0]] + FilterRecords(records[1..], f);
        assert r != [] && r[0] == records[0] && r[1..] == FilterRecords(records[1..], f);
        assert FilterRecords(r, f) == [records[0]] + FilterRecords(r[1..], f);
      } else {
        assert FilterRecords(records, f) == FilterRecords(records[1..], f);
      }
    }
  }

  /** With every control cleared, nothing is filtered out. */
  lemma {:induction false} NoFiltersKeepAll(records: seq<CustomerRecord>)
    ensures FilterRecords(records, Filters("", "", None, None, "", "", "")) == records
    decreases |records|
  {
    var f := Filters("", "", None, None, "", "", "");
    assert NormalizedSearch("") == "";
    if records != [] {
      NoFiltersKeepAll(records[1..]);
      assert ParseInt(f.transactionMin).None?;
      assert records == [records[0]] + records[1..];
    }
  }

  /** A sortable column's value: a number, or a string compared as text. */
  datatype ColumnValue = Num(n: int) | Str(s: string)

  /** `new Date('1900-01-01').getTime()`: midnight UTC at the start of 1900, in milliseconds. */
  const Year1900 := -2208988800000

  /** `COLUMN_KEYS` by index: the two tags, then the text fields in table order. */
  function ColumnKey(columnIndex: int): Option<Option<TextField>>
  {
    if columnIndex == 0 || columnIndex == 1 then Some(None)
    else if columnIndex == 2 then Some(Some(CustomerName))
    else if columnIndex == 3 then Some(Some(NextAction))
    else if columnIndex == 4 then Some(Some(ContactUrl))
    else if columnIndex == 5 then Some(Some(LastContactDate))
    else if columnIndex == 6 then Some(Some(ScheduledDate))
    else if columnIndex == 7 then Some(Some(TransactionCount))
    else if columnIndex == 8 then Some(Some(TotalAmount))
    else if columnIndex == 9 then Some(Some(Gender))
    else if columnIndex == 10 then Some(Some(Age))
    else if columnIndex == 11 then Some(Some(Notes))
    else None
  }

  /**
   * `recordValueToDate(record, i).getTime()`: the 1900 sentinel for an empty value or one the
   * platform's date parser rejects. `parse` stands for `new Date(value)`, which is left to the
   * platform.
   */
  function RecordValueTime(value: string, parse: string -> Option<int>): int {
    if value == "" then Year1900
    else match parse(value)
      case None => Year1900
      case Some(t) => t
  }

  /** `getColumnValue` */
  function GetColumnValue(record: CustomerRecord, columnIndex: int, parse: string -> Option<int>): ColumnValue {
    if columnIndex == 0 then Str(if record.isFavorite then "1" else "0")
    else if columnIndex == 1 then Str(if record.hasTrouble then "1" else "0")
    else if columnIndex == 7 then Num(ParseIntOrZero(record.transactionCount))
    else if columnIndex == 8 then Num(AmountOf(record.totalAmount))
    else if columnIndex == 5 then Num(RecordValueTime(record.lastContactDate, parse))
    else if columnIndex == 6 then Num(RecordValueTime(record.scheduledDate, parse))
    else match ColumnKey(columnIndex)
      case Some(Some(g)) => Str(GetText(record, g))
      case _ => Str("")
  }

  datatype SortDirection = Asc | Desc

  datatype SortState = SortState(column: Option<int>, direction: SortDirection)

  /**
   * The tag columns compare "1" for a set tag and "0" otherwise; the count column compares the
   * leading integer of the count, 0 when there is none; the amount column compares the amount
   * `parseAmount` reads; the two date columns compare the time the platform reads from the
   * field, or the 1900 sentinel when the field is empty or does not parse; the other columns
   * compare their text, and an index past the keys compares the empty string.
   */
  lemma ColumnValueCases(record: CustomerRecord, columnIndex: int, parse: string -> Option<int>)
    ensures columnIndex == 0 ==>
      GetColumnValue(record, columnIndex, parse) == Str(if GetFlag(record, IsFavorite) then "1" else "0")
    ensures columnIndex == 1 ==>
      GetColumnValue(record, columnIndex, parse) == Str(if GetFlag(record, HasTrouble) then "1" else "0")
    ensures columnIndex == 7 ==>
      GetColumnValue(record, columnIndex, parse) ==
        Num(match ParseInt(record.transactionCount) case None => 0 case Some(n) => n)
    ensures columnIndex == 8 ==> GetColumnValue(record, columnIndex, parse) == Num(AmountOf(record.totalAmount))
    ensures columnIndex in {5, 6} ==>
      var v := if columnIndex == 5 then record.lastContactDate else record.scheduledDate;
      GetColumnValue(record, columnIndex, parse) == Num(if v == "" || parse(v).None? then Year1900 else parse(v).value)
    ensures columnIndex in {2, 3, 4, 9, 10, 11} ==>
      (ColumnKey(columnIndex).Some? && ColumnKey(columnIndex).value.Some?
       && GetColumnValue(record, columnIndex, parse) == Str(GetText(record, ColumnKey(columnIndex).value.value)))
    ensures ColumnKey(columnIndex).None? ==> GetColumnValue(record, columnIndex, parse) == Str("")
  {
  }

  /**
   * A column's value depends on nothing but the tag or the field the column shows: two records
   * that agree there compare the same.
   */
  lemma ColumnValueOfOwnField(a: CustomerRecord, b: CustomerRecord, columnIndex: int, parse: string -> Option<int>)
    requires columnIndex == 0 ==> a.isFavorite == b.isFavorite
    requires columnIndex == 1 ==> a.hasTrouble == b.hasTrouble
    requires ColumnKey(columnIndex).Some? && ColumnKey(columnIndex).value.Some? ==>
      GetText(a, ColumnKey(columnIndex).value.value) == GetText(b, ColumnKey(columnIndex).value.value)
    ensures GetColumnValue(a, columnIndex, parse) == GetColumnValue(b, columnIndex, parse)
  {
  }

  /** Every record gives a column the same kind of value, so the sort never compares a number with a string. */
  lemma ColumnValueSameKind(a: CustomerRecord, b: CustomerRecord, columnIndex: int, parse: string -> Option<int>)
    ensures GetColumnValue(a, columnIndex, parse).Num? == GetColumnValue(b, columnIndex, parse).Num?
  {
  }

  /** JavaScript's `<` on two strings: the lexicographic order of their characters. */
  predicate TextBefore(x: string, y: string) {
    if x == [] then y != []
    else if y == [] then false
    else if x[0] != y[0] then x[0] < y[0]
    else TextBefore(x[1..], y[1..])
  }

  /** The text order is strict and total: of two different strings exactly one comes first. */
  lemma {:induction false} TextBeforeTotal(x: string, y: string)
    ensures !(TextBefore(x, y) && TextBefore(y, x))
    ensures x != y ==> TextBefore(x, y) || TextBefore(y, x)
    ensures !TextBefore(x, x)
    decreases |x|
  {
    if x != [] {
      TextBeforeTotal(x[1..], x[1..]);
      if y != [] {
        TextBeforeTotal(x[1..], y[1..]);
        if x[0] == y[0] && x != y {
          assert x == [x[0]] + x[1..] && y == [y[0]] + y[1..];
        }
      }
    }
  }

  /** `valueA < valueB` on two column values of the same kind. */
  predicate ValueBefore(x: ColumnValue, y: ColumnValue) {
    match (x, y)
    case (Num(m), Num(n)) => m < n
    case (Str(s), Str(t)) => TextBefore(s, t)
    case _ => false
  }

  /** The comparator of `sortedRecords`: -1, 1 or 0 by the column's values, flipped for a descending sort. */
  function CompareRecords(a: CustomerRecord, b: CustomerRecord, state: SortState, parse: string -> Option<int>): (c: int)
    ensures c in {-1, 0, 1}
  {
    var columnIndex := state.column.GetOr(0);
    var valueA := GetColumnValue(a, columnIndex, parse);
    var valueB := GetColumnValue(b, columnIndex, parse);
    if ValueBefore(valueA, valueB) then (if state.direction == Asc then -1 else 1)
    else if ValueBefore(valueB, valueA) then (if state.direction == Asc then 1 else -1)
    else 0
  }

  /**
   * The comparator is consistent: swapping the records negates it, it is 0 exactly when the two
   * column values are equal, and the descending sort is the ascending one reversed.
   */
  lemma CompareRecordsConsistent(a: CustomerRecord, b: CustomerRecord, state: SortState, parse: string -> Option<int>)
    ensures CompareRecords(a, b, state, parse) == -CompareRecords(b, a, state, parse)
    ensures CompareRecords(a, b, state, parse) == 0 <==>
      GetColumnValue(a, state.column.GetOr(0), parse) == GetColumnValue(b, state.column.GetOr(0), parse)
    ensures CompareRecords(a, b, state.(direction := Desc), parse) == -CompareRecords(a, b, state.(direction := Asc), parse)
  {
    var columnIndex := state.column.GetOr(0);
    var valueA := GetColumnValue(a, columnIndex, parse);
    var valueB := GetColumnValue(b, columnIndex, parse);
    ColumnValueSameKind(a, b, columnIndex, parse);
    if valueA.Str? {
      TextBeforeTotal(valueA.s, valueB.s);
    }
  }

  /** The state `handleSort(columnIndex)` moves to. */
  function NextSort(prev: SortState, columnIndex: int): (next: SortState)
    ensures next.column == Some(columnIndex)
    ensures prev.column == Some(columnIndex) ==> next.direction != prev.direction
    ensures prev.column != Some(columnIndex) ==> next.direction == Asc
  {
    if prev.column == Some(columnIndex) then
      SortState(Some(columnIndex), if prev.direction == Asc then Desc else Asc)
    else SortState(Some(columnIndex), Asc)
  }

  /** Choosing the same column twice restores the direction; a new column always starts ascending, then flips. */
  lemma NextSortTwice(prev: SortState, columnIndex: int)
    ensures prev.column == Some(columnIndex) ==> NextSort(NextSort(prev, columnIndex), columnIndex) == prev
    ensures NextSort(NextSort(prev, columnIndex), columnIndex).column == Some(columnIndex)
    ensures prev.column != Some(columnIndex) ==> NextSort(NextSort(prev, columnIndex), columnIndex).direction == Desc
  {
  }

  /** The action labels the editor offers. */
  const ActionOptions: seq<string> :=
    ["", NewProposal, Recontact, FollowUpAction, Remind, Closing, InTrade, RepeatProposal, Done]

  /** A record's action for counting: its label, or 未設定 when it has none. */
  function CountedAction(record: CustomerRecord): string {
    if record.nextAction == "" then Unset else record.nextAction
  }

  /** A label counted under its own name: one of the offered labels and free of links. */
  predicate IsValidAction(action: string) {
    action != "" && action in ActionOptions && !Contains(action, "http") && !Contains(action, "[")
  }

  predicate IsUrgent(record: CustomerRecord) {
    var action := CountedAction(record);
    IsValidAction(action) && (action == Recontact || action == FollowUpAction)
  }

  function UrgentCount(records: seq<CustomerRecord>): nat {
    if records == [] then 0
    else UrgentCount(records[..|records| - 1]) + (if IsUrgent(records[|records| - 1]) then 1 else 0)
  }

  function SumAmounts(records: seq<CustomerRecord>): nat {
    if records == [] then 0
    else SumAmounts(records[..|records| - 1]) + AmountOf(records[|records| - 1].totalAmount)
  }

  /** `new Date(now.getFullYear(), now.getMonth(), 1)`: the day this month began. */
  function MonthStart(now: Now): int {
    var c := CivilFromDays(now.today);
    MakeDay(c.year, c.month - 1, 1)
  }

  predicate ContactedThisMonth(record: CustomerRecord, now: Now) {
    var d := ParseLastContactDate(record.lastContactDate);
    d.Some? && d.value >= MonthStart(now)
  }

  predicate NewThisMonth(record: CustomerRecord, now: Now) {
    ParseIntOrZero(record.transactionCount) == 0 && ContactedThisMonth(record, now)
  }

  function CountContacted(records: seq<CustomerRecord>, now: Now): nat {
    if records == [] then 0
    else CountContacted(records[..|records| - 1], now) + (if ContactedThisMonth(records[|records| - 1], now) then 1 else 0)
  }

  function CountNew(records: seq<CustomerRecord>, now: Now): nat {
    if records == [] then 0
    else CountNew(records[..|records| - 1], now) + (if NewThisMonth(records[|records| - 1], now) then 1 else 0)
  }

  datatype Stats = Stats(
    totalCustomers: nat,
    totalAmount: nat,
    urgentCount: nat,
    newCustomersThisMonth: nat,
    contactsThisMonth: nat)

  /**
   * The summary figures: totals and the urgent count over the shown records, and the two
   * this-month counts over the whole list.
   */
  method ComputeStats(shown: seq<CustomerRecord>, customerList: seq<CustomerRecord>, now: Now) returns (stats: Stats)
    ensures stats == Stats(|shown|, SumAmounts(shown), UrgentCount(shown),
      CountNew(customerList, now), CountContacted(customerList, now))
  {
    var totalAmount, urgentCount := TallyShown(shown);
    var newCustomers, contacts := TallyThisMonth(customerList, now);
    stats := Stats(|shown|, totalAmount, urgentCount, newCustomers, contacts);
  }

  /** The amount total and the urgent count over the shown records. */
  method TallyShown(shown: seq<CustomerRecord>) returns (totalAmount: nat, urgentCount: nat)
    ensures totalAmount == SumAmounts(shown) && urgentCount == UrgentCount(shown)
  {
    totalAmount := 0;
    urgentCount := 0;
    for i := 0 to |shown|
      invariant totalAmount == SumAmounts(shown[..i]) && urgentCount == UrgentCount(shown[..i])
    {
      assert shown[..i + 1][..i] == shown[..i];
      var record := shown[i];
      var amount := ParseAmount(record.totalAmount);
      totalAmount := totalAmount + amount;
      var action := if record.nextAction == "" then Unset else record.nextAction;
      var isValidAction := action in ActionOptions && action != "" && !Contains(action, "http") && !Contains(action, "[");
      if isValidAction && (action == Recontact || action == FollowUpAction) {
        urgentCount := urgentCount + 1;
      }
    }
    assert shown[..|shown|] == shown;
  }

  /** The new-customer and contacted counts of this month over the whole list. */
  method TallyThisMonth(customerList: seq<CustomerRecord>, now: Now) returns (newCustomers: nat, contacts: nat)
    ensures newCustomers == CountNew(customerList, now) && contacts == CountContacted(customerList, now)
  {
    newCustomers := 0;
    contacts := 0;
    for i := 0 to |customerList|
      invariant newCustomers == CountNew(customerList[..i], now) && contacts == CountContacted(customerList[..i], now)
    {
      assert customerList[..i + 1][..i] == customerList[..i];
      var record := customerList[i];
      var lastContactDate := ParseLastContactDate(record.lastContactDate);
      var contacted := lastContactDate.Some? && lastContactDate.value >= MonthStart(now);
      if contacted {
        contacts := contacts + 1;
      }
      if ParseIntOrZero(record.transactionCount) == 0 && contacted {
        newCustomers := newCustomers + 1;
      }
    }
    assert customerList[..|customerList|] == customerList;
  }

  /** Only the two exact labels リコンタクト and フォローアップ are urgent; a label merely containing one is not. */
  lemma UrgentIsExactLabel(record: CustomerRecord)
    ensures IsUrgent(record) <==> record.nextAction == Recontact || record.nextAction == FollowUpAction
  {
    if record.nextAction == Recontact || record.nextAction == FollowUpAction {
      NoLinkMarkers(record.nextAction);
    }
  }

  lemma NoLinkMarkers(action: string)
    requires action == Recontact || action == FollowUpAction
    ensures !Contains(action, "http") && !Contains(action, "[")
  {
    assert 'h' !in action && '[' !in action;
    forall i | 0 <= i <= |action| - 4
      ensures !OccursAt(action, "http", i)
    {
      assert action[i] != 'h';
      assert action[i..i + 4][0] == action[i];
    }
    forall i | 0 <= i <= |action| - 1
      ensures !OccursAt(action, "[", i)
    {
      assert action[i] != '[';
      assert action[i..i + 1][0] == action[i];
    }
  }

  lemma {:induction false} SumAmountsAppend(a: seq<CustomerRecord>, b: seq<CustomerRecord>)
    ensures SumAmounts(a + b) == SumAmounts(a) + SumAmounts(b)
    decreases |b|
  {
    if b == [] {
      assert a + b == a;
    } else {
      SumAmountsAppend(a, b[..|b| - 1]);
      assert (a + b)[..|a + b| - 1] == a + b[..|b| - 1];
    }
  }

  lemma {:induction false} UrgentCountAppend(a: seq<CustomerRecord>, b: seq<CustomerRecord>)
    ensures UrgentCount(a + b) == UrgentCount(a) + UrgentCount(b)
    decreases |b|
  {
    if b == [] {
      assert a + b == a;
    } else {
      UrgentCountAppend(a, b[..|b| - 1]);
      assert (a + b)[..|a + b| - 1] == a + b[..|b| - 1];
    }
  }

  /**
   * The totals do not depend on the order of the shown records, so the column sort that
   * precedes them does not change them.
   */
  lemma {:induction false} TotalsIgnoreOrder(a: seq<CustomerRecord>, b: seq<CustomerRecord>)
    requires multiset(a) == multiset(b)
    ensures SumAmounts(a) == SumAmounts(b) && UrgentCount(a) == UrgentCount(b)
    decreases |a|
  {
    if a != [] {
      var j := PeelLast(a, b);
      TotalsIgnoreOrder(a[..|a| - 1], b[..j] + b[j + 1..]);
      TotalsWithout(b, j);
    }
  }

  /** The last element of `a` sits at some `j` in its permutation `b`; the rest stay permutations. */
  lemma PeelLast(a: seq<CustomerRecord>, b: seq<CustomerRecord>) returns (j: nat)
    requires multiset(a) == multiset(b) && a != []
    ensures j < |b| && b[j] == a[|a| - 1]
    ensures multiset(a[..|a| - 1]) == multiset(b[..j] + b[j + 1..])
  {
    var x := a[|a| - 1];
    var a' := a[..|a| - 1];
    assert a == a' + [x];
    assert x in multiset(b);
    j :| 0 <= j < |b| && b[j] == x;
    var b' := b[..j] + b[j + 1..];
    assert b == b[..j] + [x] + b[j + 1..];
    assert multiset(a) == multiset(a') + multiset([x]);
    assert multiset(b) == multiset(b[..j]) + multiset([x]) + multiset(b[j + 1..]);
    assert multiset(b') == multiset(b[..j]) + multiset(b[j + 1..]);
    assert multiset(a') == multiset(a) - multiset([x]);
    assert multiset(b') == multiset(b) - multiset([x]);
  }

  /** The totals of a list are those without its `j`-th record plus that record's share. */
  lemma TotalsWithout(b: seq<CustomerRecord>, j: nat)
    requires j < |b|
    ensures SumAmounts(b) == SumAmounts(b[..j] + b[j + 1..]) + AmountOf(b[j].totalAmount)
    ensures UrgentCount(b) == UrgentCount(b[..j] + b[j + 1..]) + (if IsUrgent(b[j]) then 1 else 0)
  {
    SplitAround(b, j);
    TotalsAround(b, b[..j], b[j], b[j + 1..]);
  }

  lemma SplitAround<T>(s: seq<T>, j: nat)
    requires j < |s|
    ensures s == s[..j] + [s[j]] + s[j + 1..]
  {
  }

  lemma TotalsAround(b: seq<CustomerRecord>, l: seq<CustomerRecord>, x: CustomerRecord, r: seq<CustomerRecord>)
    requires b == l + [x] + r
    ensures SumAmounts(b) == SumAmounts(l + r) + AmountOf(x.totalAmount)
    ensures UrgentCount(b) == UrgentCount(l + r) + (if IsUrgent(x) then 1 else 0)
  {
    assert [x][..0] == [];
    SumAmountsAppend(l + [x], r);
    SumAmountsAppend(l, [x]);
    SumAmountsAppend(l, r);
    UrgentCountAppend(l + [x], r);
    UrgentCountAppend(l, [x]);
    UrgentCountAppend(l, r);
  }

  /** Every new customer of the month is also a contact of the month. */
  lemma {:induction false} NewAreContacts(records: seq<CustomerRecord>, now: Now)
    ensures CountNew(records, now) <= CountContacted(records, now) <= |records|
    decreases |records|
  {
    if records != [] {
      NewAreContacts(records[..|records| - 1], now);
    }
  }
}
