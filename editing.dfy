/**
 * The dashboard's editable customer list: a cell edit that recomputes the scheduled date, the
 * tag toggle, the sort-column choice, and the lookup of a shown row in the full list.
 */
module Editing {
  import opened Wrappers
  import opened Text
  import opened Calendar
  import opened Types
  import opened ContactDates
  import opened ListView

  datatype StatusVariant = Success | Error

  /** The record after `{ ...item, [field]: value }` and, for the two inputs of the rule, the recomputed scheduled date. */
  function EditRecord(item: CustomerRecord, field: TextField, value: string, now: Now): CustomerRecord {
    var updated := WithText(item, field, value);
    if field == NextAction || field == LastContactDate then updated.(scheduledDate := ScheduledDateText(updated, now))
    else updated
  }

  /** The list `prev.map` yields: the record at `recordIndex` edited, every other one as it was. */
  function EditedList(list: seq<CustomerRecord>, recordIndex: int, field: TextField, value: string, now: Now): seq<CustomerRecord> {
    seq(|list|, i requires 0 <= i < |list| => if i == recordIndex then EditRecord(list[i], field, value, now) else list[i])
  }

  /**
   * The edited field takes the new value; the scheduled date is recomputed from the edited record
   * exactly when the action or the last contact date was edited; no other field and no tag changes.
   */
  lemma EditRecordFields(item: CustomerRecord, field: TextField, value: string, now: Now)
    requires field != ScheduledDate
    ensures GetText(EditRecord(item, field, value, now), field) == value
    ensures forall g :: g != field && g != ScheduledDate ==> GetText(EditRecord(item, field, value, now), g) == GetText(item, g)
    ensures field == NextAction || field == LastContactDate ==>
      EditRecord(item, field, value, now).scheduledDate == ScheduledDateText(WithText(item, field, value), now)
    ensures field != NextAction && field != LastContactDate ==>
      EditRecord(item, field, value, now).scheduledDate == item.scheduledDate
    ensures forall k :: GetFlag(EditRecord(item, field, value, now), k) == GetFlag(item, k)
  {
    var updated := WithText(item, field, value);
    var r := EditRecord(item, field, value, now);
    if field == NextAction || field == LastContactDate {
      assert forall g :: g != ScheduledDate ==> GetText(r, g) == GetText(updated, g);
      assert forall k :: GetFlag(r, k) == GetFlag(updated, k);
    }
    assert item.scheduledDate == GetText(item, ScheduledDate);
  }

  /** Only the record at `recordIndex` changes; an index outside the list changes nothing. */
  lemma EditedListOthers(list: seq<CustomerRecord>, recordIndex: int, field: TextField, value: string, now: Now)
    ensures |EditedList(list, recordIndex, field, value, now)| == |list|
    ensures forall i :: 0 <= i < |list| && i != recordIndex ==> EditedList(list, recordIndex, field, value, now)[i] == list[i]
    ensures 0 <= recordIndex < |list| ==> EditedList(list, recordIndex, field, value, now)[recordIndex] == EditRecord(list[recordIndex], field, value, now)
    ensures !(0 <= recordIndex < |list|) ==> EditedList(list, recordIndex, field, value, now) == list
  {
  }

  /** The rows `handleMarkToggle` flips: the one at `recordIndex`, and, for a non-empty name, every row of that name. */
  predicate MarkMatches(item: CustomerRecord, index: int, recordIndex: int, customerName: string) {
    index == recordIndex || (customerName != "" && item.customerName == customerName)
  }

  function Toggle(item: CustomerRecord, flag: Flag): CustomerRecord {
    WithFlag(item, flag, !GetFlag(item, flag))
  }

  /** The list `prev.map` yields in `handleMarkToggle`. */
  function ToggledList(list: seq<CustomerRecord>, recordIndex: int, flag: Flag, customerName: string): seq<CustomerRecord> {
    seq(|list|, i requires 0 <= i < |list| =>
      if MarkMatches(list[i], i, recordIndex, customerName) then Toggle(list[i], flag) else list[i])
  }

  /** Toggling a tag twice gives the record back. */
  lemma ToggleTwice(item: CustomerRecord, flag: Flag)
    ensures Toggle(Toggle(item, flag), flag) == item
  {
    var t := Toggle(Toggle(item, flag), flag);
    assert forall k :: GetFlag(t, k) == GetFlag(item, k);
    RecordExtensionality(t, item);
  }

  /**
   * Exactly the matching records have the tag negated, with everything else about them kept;
   * the other records are unchanged.
   */
  lemma ToggledListEffect(list: seq<CustomerRecord>, recordIndex: int, flag: Flag, customerName: string)
    ensures |ToggledList(list, recordIndex, flag, customerName)| == |list|
    ensures forall i :: 0 <= i < |list| && MarkMatches(list[i], i, recordIndex, customerName) ==>
      GetFlag(ToggledList(list, recordIndex, flag, customerName)[i], flag) == !GetFlag(list[i], flag)
    ensures forall i, k :: 0 <= i < |list| && k != flag ==>
      GetFlag(ToggledList(list, recordIndex, flag, customerName)[i], k) == GetFlag(list[i], k)
    ensures forall i, g :: 0 <= i < |list| ==>
      GetText(ToggledList(list, recordIndex, flag, customerName)[i], g) == GetText(list[i], g)
    ensures forall i :: 0 <= i < |list| && !MarkMatches(list[i], i, recordIndex, customerName) ==>
      ToggledList(list, recordIndex, flag, customerName)[i] == list[i]
  {
  }

  /** Toggling the same tag with the same arguments twice restores the list. */
  lemma ToggledListTwice(list: seq<CustomerRecord>, recordIndex: int, flag: Flag, customerName: string)
    ensures ToggledList(ToggledList(list, recordIndex, flag, customerName), recordIndex, flag, customerName) == list
  {
    var once := ToggledList(list, recordIndex, flag, customerName);
    var twice := ToggledList(once, recordIndex, flag, customerName);
    forall i | 0 <= i < |list|
      ensures twice[i] == list[i]
    {
      assert once[i].customerName == GetText(once[i], CustomerName) == GetText(list[i], CustomerName);
      if MarkMatches(list[i], i, recordIndex, customerName) {
        ToggleTwice(list[i], flag);
      }
    }
  }

  /** `findRecordIndex`'s key: the fields that identify a row when the row object is not found. */
  predicate SameKey(a: CustomerRecord, b: CustomerRecord) {
    a.customerName == b.customerName && a.lastContactDate == b.lastContactDate
    && a.nextAction == b.nextAction && a.contactUrl == b.contactUrl
  }

  /** The first index at or after `from` holding `record`, or -1. */
  function IndexOfRecord(list: seq<CustomerRecord>, record: CustomerRecord, from: nat): (r: int)
    requires from <= |list|
    ensures r == -1 ==> forall i :: from <= i < |list| ==> list[i] != record
    ensures r != -1 ==> from <= r < |list| && list[r] == record && forall i :: from <= i < r ==> list[i] != record
    decreases |list| - from
  {
    if from == |list| then -1
    else if list[from] == record then from
    else IndexOfRecord(list, record, from + 1)
  }

  /** The first index at or after `from` whose key matches `record`'s, or -1. */
  function IndexOfKey(list: seq<CustomerRecord>, record: CustomerRecord, from: nat): (r: int)
    requires from <= |list|
    ensures r == -1 ==> forall i :: from <= i < |list| ==> !SameKey(list[i], record)
    ensures r != -1 ==> from <= r < |list| && SameKey(list[r], record) && forall i :: from <= i < r ==> !SameKey(list[i], record)
    decreases |list| - from
  {
    if from == |list| then -1
    else if SameKey(list[from], record) then from
    else IndexOfKey(list, record, from + 1)
  }

  /** `findRecordIndex`: the record's own position, else the first row with the same key, else 0. */
  function FindRecordIndex(record: CustomerRecord, list: seq<CustomerRecord>): int {
    var direct := IndexOfRecord(list, record, 0);
    if direct != -1 then direct
    else
      var fallback := IndexOfKey(list, record, 0);
      if fallback == -1 then 0 else fallback
  }

  /**
   * A record in the list is found at its first position; a record that is not, at the first row
   * sharing its key; and a record matching no row gives 0, the first row.
   */
  lemma FindRecordIndexCases(record: CustomerRecord, list: seq<CustomerRecord>)
    ensures record in list ==> var r := FindRecordIndex(record, list);
      0 <= r < |list| && list[r] == record && record !in list[..r]
    ensures record !in list && (exists i :: 0 <= i < |list| && SameKey(list[i], record)) ==>
      var r := FindRecordIndex(record, list);
      0 <= r < |list| && SameKey(list[r], record) && forall i :: 0 <= i < r ==> !SameKey(list[i], record)
    ensures (forall i :: 0 <= i < |list| ==> !SameKey(list[i], record)) ==> FindRecordIndex(record, list) == 0
  {
    if record in list {
      var j :| 0 <= j < |list| && list[j] == record;
      var r := FindRecordIndex(record, list);
      assert IndexOfRecord(list, record, 0) != -1;
      assert forall i :: 0 <= i < r ==> list[..r][i] == list[i];
    }
  }

  /** The dashboard's list state: the rows, whether they await saving, the status line and the sort choice. */
  class CustomerManager {
    var customerList: seq<CustomerRecord>
    var isDirty: bool
    var statusMessage: Option<string>
    var statusVariant: Option<StatusVariant>
    var sortState: SortState

    /** The initial state: the loaded rows, nothing to save, no status, sorted by last contact date ascending. */
    constructor(customers: seq<CustomerRecord>)
      ensures customerList == customers && !isDirty
      ensures statusMessage == None && statusVariant == None
      ensures sortState == SortState(Some(5), Asc)
    {
      customerList := customers;
      isDirty := false;
      statusMessage := None;
      statusVariant := None;
      sortState := SortState(Some(5), Asc);
    }

    /** The effect every edit has on the status line: a shown status is cleared. */
    twostate predicate StatusAfterEdit()
      reads this
    {
      && (old(statusVariant) != None ==> statusMessage == None && statusVariant == None)
      && (old(statusVariant) == None ==> statusMessage == old(statusMessage) && statusVariant == None)
    }

    /** `handleCellChange`: an edit to the scheduled date is ignored; any other edit rewrites one row and marks the list unsaved. */
    method CellChange(recordIndex: int, field: TextField, value: string, now: Now)
      modifies this
      ensures sortState == old(sortState)
      ensures field == ScheduledDate ==>
        customerList == old(customerList) && isDirty == old(isDirty)
        && statusMessage == old(statusMessage) && statusVariant == old(statusVariant)
      ensures field != ScheduledDate ==>
        customerList == EditedList(old(customerList), recordIndex, field, value, now) && isDirty && StatusAfterEdit()
    {
      if field == ScheduledDate {
        return;
      }
      var prev := customerList;
      var next: seq<CustomerRecord> := [];
      for index := 0 to |prev|
        invariant |next| == index
        invariant forall i :: 0 <= i < index ==> next[i] == EditedList(prev, recordIndex, field, value, now)[i]
        invariant unchanged(this)
      {
        var item := prev[index];
        if index == recordIndex {
          var updated := WithText(item, field, value);
          if field == NextAction || field == LastContactDate {
            var scheduled := CalculateScheduledDate(updated, now);
            updated := updated.(scheduledDate := scheduled);
          }
          next := next + [updated];
        } else {
          next := next + [item];
        }
      }
      customerList := next;
      isDirty := true;
      if statusVariant != None {
        statusMessage := None;
        statusVariant := None;
      }
    }

    /** `handleMarkToggle`: negate one tag on the matching rows and mark the list unsaved. */
    method MarkToggle(recordIndex: int, flag: Flag, customerName: string)
      modifies this
      ensures customerList == ToggledList(old(customerList), recordIndex, flag, customerName)
      ensures isDirty && sortState == old(sortState) && StatusAfterEdit()
    {
      var prev := customerList;
      var next: seq<CustomerRecord> := [];
      for index := 0 to |prev|
        invariant |next| == index
        invariant forall i :: 0 <= i < index ==> next[i] == ToggledList(prev, recordIndex, flag, customerName)[i]
        invariant unchanged(this)
      {
        var item := prev[index];
        var matchesByIndex := index == recordIndex;
        var matchesByName := customerName != "" && item.customerName == customerName;
        if matchesByIndex || matchesByName {
          var currentValue := GetFlag(item, flag);
          next := next + [WithFlag(item, flag, !currentValue)];
        } else {
          next := next + [item];
        }
      }
      customerList := next;
      isDirty := true;
      if statusVariant != None {
        statusMessage := None;
        statusVariant := None;
      }
    }

    /** `handleSort` */
    method Sort(columnIndex: int)
      modifies this
      ensures sortState == NextSort(old(sortState), columnIndex)
      ensures customerList == old(customerList) && isDirty == old(isDirty)
      ensures statusMessage == old(statusMessage) && statusVariant == old(statusVariant)
    {
      sortState := NextSort(sortState, columnIndex);
    }
  }
}
