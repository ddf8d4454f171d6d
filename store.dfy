/**
 * The save endpoint's pure half: record normalisation, cell formatting, the Markdown table it
 * writes, and the splice of that table into the larger customer document.
 */
module CustomerStore {
  import opened Wrappers
  import opened Text
  import opened Types

  /** `TABLE_HEADER`, written in pieces. */
  const TableHeader := "| 顧客名 | 次のアクション | 連絡先 | ♥ | ✗ " + "| ⭐ | 最終連絡日 | 実行予定日 | 取引回数 " + "| 総額 | 性別 | 年齢 | 関係性/メモ |"
  /** `TABLE_SEPARATOR`, written in pieces. */
  const TableSeparator := "|--------|-------------|--------" + "|----|----|----|------------" + "|----------|----------|------" + "|------|------|-------------|"
  /** The header of the ten-column table older documents carry. */
  const OldTableHeader := "| 顧客名 | 最終連絡日 | 次のアクション | 実行予定日 | 連絡先 | 取引回数 | 総額 | 性別 | 年齢 | 関係性/メモ |"

  /** A table column: a text field or a tag. */
  datatype Column = TextColumn(field: TextField) | TagColumn(flag: Flag)

  /** `COLUMN_KEYS`: the table's column order. */
  const ColumnKeys: seq<Column> := [
    TextColumn(CustomerName), TextColumn(NextAction), TextColumn(ContactUrl),
    TagColumn(HasHeart), TagColumn(HasTrouble), TagColumn(IsFavorite),
    TextColumn(LastContactDate), TextColumn(ScheduledDate), TextColumn(TransactionCount),
    TextColumn(TotalAmount), TextColumn(Gender), TextColumn(Age), TextColumn(Notes)]

  /** The position of a column in `COLUMN_KEYS`. */
  function ColumnIndex(c: Column): (i: nat)
    ensures i < |ColumnKeys| && ColumnKeys[i] == c
  {
    match c
    case TextColumn(CustomerName) => 0
    case TextColumn(NextAction) => 1
    case TextColumn(ContactUrl) => 2
    case TagColumn(HasHeart) => 3
    case TagColumn(HasTrouble) => 4
    case TagColumn(IsFavorite) => 5
    case TextColumn(LastContactDate) => 6
    case TextColumn(ScheduledDate) => 7
    case TextColumn(TransactionCount) => 8
    case TextColumn(TotalAmount) => 9
    case TextColumn(Gender) => 10
    case TextColumn(Age) => 11
    case TextColumn(Notes) => 12
  }

  /** No column appears twice in `COLUMN_KEYS`. */
  lemma ColumnKeysDistinct(i: nat, j: nat)
    requires i < |ColumnKeys| && j < |ColumnKeys| && ColumnKeys[i] == ColumnKeys[j]
    ensures i == j
  {
  }

  /** A JSON value as the request body may carry it in any field. */
  datatype JsValue = JsNull | JsBool(b: bool) | JsNumber(x: real) | JsString(s: string) | JsObject

  /** JavaScript truthiness. */
  predicate Truthy(v: JsValue) {
    match v
    case JsNull => false
    case JsBool(b) => b
    case JsNumber(x) => x != 0.0
    case JsString(s) => s != ""
    case JsObject => true
  }

  /** A record from the request body: the value under each of `COLUMN_KEYS`, in order, `None` where the key is missing. */
  type RawRecord = values: seq<Option<JsValue>> | |values| == |ColumnKeys| witness seq(13, i => None)

  /** `record[key]` */
  function Lookup(record: RawRecord, c: Column): Option<JsValue> {
    record[ColumnIndex(c)]
  }

  /** What `normalizeRecord` stores under one key: a tag becomes its truth value; a text keeps strings and anything else but null and undefined, which become ''. */
  function NormalizeValue(c: Column, v: Option<JsValue>): JsValue {
    match c
    case TagColumn(_) => JsBool(v.Some? && Truthy(v.value))
    case TextColumn(_) =>
      match v
      case None => JsString("")
      case Some(JsNull) => JsString("")
      case Some(x) => x
  }

  function NormalizedRecord(record: RawRecord): RawRecord {
    seq(|ColumnKeys|, i requires 0 <= i < |ColumnKeys| => Some(NormalizeValue(ColumnKeys[i], record[i])))
  }

  /** `normalizeRecord`: copy the record, then overwrite it key by key in column order. */
  method NormalizeRecord(record: RawRecord) returns (normalized: RawRecord)
    ensures normalized == NormalizedRecord(record)
  {
    normalized := record;
    for i := 0 to |ColumnKeys|
      invariant forall j :: 0 <= j < i ==> normalized[j] == NormalizedRecord(record)[j]
      invariant forall j :: i <= j < |ColumnKeys| ==> normalized[j] == record[j]
    {
      var key := ColumnKeys[i];
      var value := normalized[i];
      if key.TagColumn? {
        normalized := normalized[i := Some(JsBool(value.Some? && Truthy(value.value)))];
      } else if value.Some? && value.value.JsString? {
        normalized := normalized[i := value];
      } else {
        normalized := normalized[i := Some(if value.None? || value.value.JsNull? then JsString("") else value.value)];
      }
    }
  }

  /** The record as a request body carries it when it came from the dashboard. */
  function RawOf(record: CustomerRecord): RawRecord {
    seq(|ColumnKeys|, i requires 0 <= i < |ColumnKeys| =>
      match ColumnKeys[i]
      case TextColumn(g) => Some(JsString(GetText(record, g)))
      case TagColumn(f) => Some(JsBool(GetFlag(record, f))))
  }

  /** Normalising changes nothing about a record the dashboard sent, and normalising twice is normalising once. */
  lemma NormalizeFixesRecords(record: CustomerRecord, raw: RawRecord)
    ensures NormalizedRecord(RawOf(record)) == RawOf(record)
    ensures NormalizedRecord(NormalizedRecord(raw)) == NormalizedRecord(raw)
  {
  }

  /** After normalising, every tag is a boolean, and every text is a string exactly when it was a string, null or missing. */
  lemma NormalizedShape(raw: RawRecord, c: Column)
    ensures Lookup(NormalizedRecord(raw), c).Some?
    ensures c.TagColumn? ==> Lookup(NormalizedRecord(raw), c) == Some(JsBool(Lookup(raw, c).Some? && Truthy(Lookup(raw, c).value)))
    ensures c.TextColumn? ==> (Lookup(NormalizedRecord(raw), c).value.JsString? <==>
      Lookup(raw, c).None? || Lookup(raw, c).value.JsNull? || Lookup(raw, c).value.JsString?)
    ensures c.TextColumn? && Lookup(raw, c).Some? && Lookup(raw, c).value.JsString? ==>
      Lookup(NormalizedRecord(raw), c) == Lookup(raw, c)
  {
  }

  /** `s.replace(/\r?\n/g, ' ')` */
  function JoinLines(s: string): (r: string)
    ensures '\n' !in r
    ensures '\n' !in s ==> r == s
  {
    if s == [] then []
    else if |s| >= 2 && s[0] == '\r' && s[1] == '\n' then [' '] + JoinLines(s[2..])
    else if s[0] == '\n' then [' '] + JoinLines(s[1..])
    else [s[0]] + JoinLines(s[1..])
  }

  /** `s.replace(/\|/g, '\\|')` */
  function EscapePipes(s: string): (r: string)
    ensures '|' !in s ==> r == s
    ensures '\n' in r <==> '\n' in s
  {
    if s == [] then []
    else (if s[0] == '|' then "\\|" else [s[0]]) + EscapePipes(s[1..])
  }

  lemma {:induction false} JoinLinesKeepsText(s: string)
    requires !AllWhite(s)
    ensures !AllWhite(JoinLines(s))
    decreases |s|
  {
    if |s| >= 2 && s[0] == '\r' && s[1] == '\n' {
      AllWhiteAppend(s[..2], s[2..]);
      assert s == s[..2] + s[2..];
      JoinLinesKeepsText(s[2..]);
      AllWhiteAppend([' '], JoinLines(s[2..]));
    } else if !IsWhite(s[0]) {
      assert JoinLines(s)[0] == s[0];
    } else {
      AllWhiteAppend([s[0]], s[1..]);
      assert s == [s[0]] + s[1..];
      JoinLinesKeepsText(s[1..]);
      var x := if s[0] == '\n' then ' ' else s[0];
      assert JoinLines(s) == [x] + JoinLines(s[1..]);
      AllWhiteAppend([x], JoinLines(s[1..]));
    }
  }

  lemma AllWhiteAppend(a: string, b: string)
    ensures AllWhite(a + b) <==> AllWhite(a) && AllWhite(b)
  {
    if AllWhite(a) && AllWhite(b) {
      forall i | 0 <= i < |a + b|
        ensures IsWhite((a + b)[i])
      {
        if i >= |a| {
          assert (a + b)[i] == b[i - |a|];
        }
      }
    }
    if AllWhite(a + b) {
      forall i | 0 <= i < |b|
        ensures IsWhite(b[i])
      {
        assert (a + b)[|a| + i] == b[i];
      }
      forall i | 0 <= i < |a|
        ensures IsWhite(a[i])
      {
        assert (a + b)[i] == a[i];
      }
    }
  }

  lemma {:induction false} EscapePipesKeepsText(s: string)
    requires !AllWhite(s)
    ensures !AllWhite(EscapePipes(s))
    decreases |s|
  {
    var head := if s[0] == '|' then "\\|" else [s[0]];
    if !IsWhite(s[0]) {
      assert EscapePipes(s)[|head| - 1] == s[0];
    } else {
      assert !AllWhite(s[1..]) by {
        assert forall k :: 1 <= k < |s| ==> s[k] == s[1..][k - 1];
      }
      EscapePipesKeepsText(s[1..]);
      assert forall k :: 0 <= k < |EscapePipes(s[1..])| ==> EscapePipes(s)[k + 1] == EscapePipes(s[1..])[k];
    }
  }

  /** The cell text of a string value. */
  function FormatText(s: string): string {
    if Trim(s) == "" then "-" else Trim(EscapePipes(JoinLines(s)))
  }

  /**
   * A cell is never empty, never holds a line feed and never starts or ends with white space;
   * blank text becomes '-', and text without '|' or a line feed is only trimmed.
   */
  lemma FormatTextProperties(s: string)
    ensures FormatText(s) != "" && '\n' !in FormatText(s) && IsTrimmed(FormatText(s))
    ensures AllWhite(s) ==> FormatText(s) == "-"
    ensures '|' !in s && '\n' !in s && !AllWhite(s) ==> FormatText(s) == Trim(s)
  {
    TrimEmptyIff(s);
    if Trim(s) != "" {
      var e := EscapePipes(JoinLines(s));
      JoinLinesKeepsText(s);
      EscapePipesKeepsText(JoinLines(s));
      TrimEmptyIff(e);
      TrimKeepsAbsent(e, '\n');
      TrimIsTrimmed(e);
      if '|' !in s && '\n' !in s {
        assert JoinLines(s) == s;
        assert '|' !in JoinLines(s);
      }
    }
  }

  /** `formatCell`; `None` where `value.trim` is not a function (a non-zero number or an object) and the call throws. */
  function FormatCell(value: Option<JsValue>): (r: Option<string>)
    ensures value.None? || value == Some(JsNull) ==> r == Some("-")
    ensures value == Some(JsBool(true)) ==> r == Some("✓")
    ensures value == Some(JsBool(false)) ==> r == Some("-")
    ensures r.None? <==> value.Some? && Truthy(value.value) && (value.value.JsNumber? || value.value.JsObject?)
  {
    match value
    case None => Some("-")
    case Some(JsNull) => Some("-")
    case Some(JsBool(b)) => Some(if b then "✓" else "-")
    case Some(JsString(s)) => Some(if s == "" then "-" else FormatText(s))
    case Some(JsNumber(x)) => if x == 0.0 then Some("-") else None
    case Some(JsObject) => None
  }

  /** One record's cells, in column order. */
  function CellText(record: CustomerRecord, c: Column): string {
    match c
    case TextColumn(g) => FormatText(GetText(record, g))
    case TagColumn(f) => if GetFlag(record, f) then "✓" else "-"
  }

  function RowCells(record: CustomerRecord): (cells: seq<string>)
    ensures |cells| == |ColumnKeys| == 13
  {
    seq(|ColumnKeys|, i requires 0 <= i < |ColumnKeys| => CellText(record, ColumnKeys[i]))
  }

  /** Each cell is what `formatCell` makes of the record's value under that key. */
  lemma RowCellsAreFormatCell(record: CustomerRecord, i: nat)
    requires i < |ColumnKeys|
    ensures FormatCell(RawOf(record)[i]) == Some(RowCells(record)[i])
  {
    var c := ColumnKeys[i];
    if c.TextColumn? {
      var s := GetText(record, c.field);
      if s != "" {
        TrimEmptyIff(s);
      }
    }
  }

  /** `| c1 | c2 | … | c13 |` */
  function Row(record: CustomerRecord): string {
    "| " + Join(RowCells(record), " | ") + " |"
  }

  function Rows(records: seq<CustomerRecord>): (rows: seq<string>)
    ensures |rows| == |records|
  {
    seq(|records|, i requires 0 <= i < |records| => Row(records[i]))
  }

  /** `buildMarkdownTable` */
  function BuildMarkdownTable(records: seq<CustomerRecord>): string {
    Join([TableHeader, TableSeparator] + Rows(records), "\n")
  }

  lemma {:induction false} JoinAbsent(parts: seq<string>, sep: string, c: char)
    requires c !in sep && forall k :: 0 <= k < |parts| ==> c !in parts[k]
    ensures c !in Join(parts, sep)
    decreases |parts|
  {
    if |parts| > 1 {
      JoinAbsent(parts[1..], sep, c);
    }
  }

  lemma RowHasNoLineFeed(record: CustomerRecord)
    ensures '\n' !in Row(record) && Row(record)[|Row(record)| - 1] == '|'
  {
    var cells := RowCells(record);
    forall k | 0 <= k < |cells|
      ensures '\n' !in cells[k]
    {
      if ColumnKeys[k].TextColumn? {
        FormatTextProperties(GetText(record, ColumnKeys[k].field));
      }
    }
    JoinAbsent(cells, " | ", '\n');
  }

  lemma FixedLinesHaveNoLineFeed()
    ensures '\n' !in TableHeader && TableHeader[|TableHeader| - 1] == '|'
    ensures '\n' !in TableSeparator && TableSeparator[|TableSeparator| - 1] == '|'
  {
    HeaderHasNoLineFeed();
    SeparatorHasNoLineFeed();
  }

  lemma HeaderHasNoLineFeed()
    ensures '\n' !in TableHeader && TableHeader[|TableHeader| - 1] == '|'
  {
  }

  lemma SeparatorHasNoLineFeed()
    ensures '\n' !in TableSeparator && TableSeparator[|TableSeparator| - 1] == '|'
  {
  }

  /** The table's lines are the header, the separator, then one row per record in order. */
  lemma TableLines(records: seq<CustomerRecord>)
    ensures SplitLines(BuildMarkdownTable(records)) == [TableHeader, TableSeparator] + Rows(records)
  {
    var lines := [TableHeader, TableSeparator] + Rows(records);
    forall k | 0 <= k < |lines|
      ensures '\n' !in lines[k] && DropCR(lines[k]) == lines[k]
    {
      if k >= 2 {
        assert lines[k] == Row(records[k - 2]);
        RowHasNoLineFeed(records[k - 2]);
      } else {
        FixedLinesHaveNoLineFeed();
      }
    }
    SplitLinesJoin(lines);
  }

  /** `findNextSectionIndex`: the first `\n## ` at or after `fromIndex`, else the end of the content. */
  function FindNextSectionIndex(content: string, fromIndex: int): (r: int)
    ensures 0 <= r <= |content|
    ensures r < |content| ==> OccursAt(content, "\n## ", r) && (fromIndex <= r || fromIndex > |content|)
    ensures forall j :: fromIndex <= j < r ==> !OccursAt(content, "\n## ", j)
  {
    var headingIndex := IndexOf(content, "\n## ", fromIndex);
    if headingIndex == -1 then |content| else headingIndex
  }

  /**
   * The span of the document the table replaces: from the current header (or, when there is
   * none, the old one) up to the next section heading after it or the end.
   */
  function TableSpan(original: string): (r: Option<(nat, nat)>)
    ensures r.None? <==> !Contains(original, TableHeader) && !Contains(original, OldTableHeader)
    ensures r.Some? ==> r.value.0 <= r.value.1 <= |original|
  {
    IndexOfContains(original, TableHeader);
    IndexOfContains(original, OldTableHeader);
    var newHeaderIndex := IndexOf(original, TableHeader, 0);
    var oldHeaderIndex := IndexOf(original, OldTableHeader, 0);
    if newHeaderIndex == -1 && oldHeaderIndex == -1 then None
    else
      var headerIndex := if newHeaderIndex != -1 then newHeaderIndex else oldHeaderIndex;
      var headerToFind := if newHeaderIndex != -1 then TableHeader else OldTableHeader;
      Some((headerIndex, FindNextSectionIndex(original, headerIndex + |headerToFind|)))
  }

  /** `mergeTableContents` */
  function MergeTableContents(original: string, table: string): string {
    match TableSpan(original)
    case None => TrimEnd(table + "\n" + (if original != "" then TrimStart(original) else "")) + "\n"
    case Some((headerIndex, afterStart)) =>
      var trimmedBefore := TrimEnd(original[..headerIndex]);
      var trimmedAfter := TrimStart(original[afterStart..]);
      var prefix := if trimmedBefore != "" then trimmedBefore + "\n" else "";
      var suffix := if trimmedAfter != "" then "\n" + trimmedAfter else "\n";
      ReplaceAll(prefix + table + suffix, "\r\n", "\n")
  }

  /**
   * The span starts at the first current header when there is one, else at the first old
   * header; it ends at the first section heading after that header, or at the end.
   */
  lemma TableSpanStart(original: string)
    requires TableSpan(original).Some?
    ensures var (start, end) := TableSpan(original).value;
      var header := if Contains(original, TableHeader) then TableHeader else OldTableHeader;
      && OccursAt(original, header, start)
      && (forall j :: 0 <= j < start ==> !OccursAt(original, header, j))
      && start + |header| <= end
      && (end == |original| || OccursAt(original, "\n## ", end))
      && (forall j :: start + |header| <= j < end ==> !OccursAt(original, "\n## ", j))
  {
    IndexOfContains(original, TableHeader);
    IndexOfContains(original, OldTableHeader);
  }

  /** Without either header, the table goes first, the document follows, and one line feed ends the file. */
  lemma MergeWithoutHeader(original: string, table: string)
    requires !Contains(original, TableHeader) && !Contains(original, OldTableHeader)
    ensures var r := MergeTableContents(original, table);
      && r == TrimEnd(table + "\n" + TrimStart(original)) + "\n"
      && r[|r| - 1] == '\n' && (|r| == 1 || !IsWhite(r[|r| - 2]))
  {
    assert TableSpan(original).None?;
    assert (if original != "" then TrimStart(original) else "") == TrimStart(original);
    TrimmedLine(table + "\n" + TrimStart(original));
  }

  /** White space trimmed from the end, then one line feed: the text ends in exactly one. */
  lemma TrimmedLine(u: string)
    ensures var r := TrimEnd(u) + "\n";
      r[|r| - 1] == '\n' && (|r| == 1 || !IsWhite(r[|r| - 2]))
  {
    var t := TrimEnd(u);
    TrimEndShape(u);
    assert (t + "\n")[..|t|] == t;
  }

  /**
   * With a header, the text before the span is kept without its trailing white space and the
   * text after it without its leading white space, the table stands in between on lines of its
   * own, and every CRLF in the three pieces becomes LF.
   */
  lemma MergeWithHeader(original: string, table: string, start: nat, end: nat, before: string, after: string)
    requires TableSpan(original) == Some((start, end))
    requires start <= end <= |original|
    requires before == TrimEnd(original[..start]) && after == TrimStart(original[end..])
    requires table == [] || table[|table| - 1] != '\r'
    ensures MergeTableContents(original, table) ==
        (if before != "" then ReplaceAll(before, "\r\n", "\n") + "\n" else "")
        + ReplaceAll(table, "\r\n", "\n")
        + (if after != "" then "\n" + ReplaceAll(after, "\r\n", "\n") else "\n")
  {
    CrlfPieces(original[..start], table, after);
  }

  /** The line-end rewrite of the three merged pieces, taken piece by piece. */
  lemma CrlfPieces(head: string, table: string, after: string)
    requires table == [] || table[|table| - 1] != '\r'
    ensures var before := TrimEnd(head);
      ReplaceAll((if before != "" then before + "\n" else "") + table + (if after != "" then "\n" + after else "\n"), "\r\n", "\n")
      == (if before != "" then ReplaceAll(before, "\r\n", "\n") + "\n" else "")
        + ReplaceAll(table, "\r\n", "\n")
        + (if after != "" then "\n" + ReplaceAll(after, "\r\n", "\n") else "\n")
  {
    var before := TrimEnd(head);
    TrimEndLast(head);
    CrlfThree(if before != "" then before + "\n" else "", table, if after != "" then "\n" + after else "\n");
    CrlfPrefix(before);
    CrlfSuffix(after);
  }

  /** Three pieces whose first two do not end in a carriage return are rewritten one by one. */
  lemma CrlfThree(p: string, t: string, s: string)
    requires p == [] || p[|p| - 1] != '\r'
    requires t == [] || t[|t| - 1] != '\r'
    ensures ReplaceAll(p + t + s, "\r\n", "\n") == ReplaceAll(p, "\r\n", "\n") + ReplaceAll(t, "\r\n", "\n") + ReplaceAll(s, "\r\n", "\n")
  {
    assert p + t + s == p + (t + s);
    ReplaceCrlfConcat(p, t + s);
    ReplaceCrlfConcat(t, s);
  }

  /** The text before the table, with its separating line end. */
  lemma CrlfPrefix(before: string)
    requires before == [] || !IsWhite(before[|before| - 1])
    ensures ReplaceAll(if before != "" then before + "\n" else "", "\r\n", "\n")
      == (if before != "" then ReplaceAll(before, "\r\n", "\n") + "\n" else "")
  {
    if before != "" {
      ReplaceCrlfConcat(before, "\n");
    }
  }

  /** The text after the table, with its separating line end. */
  lemma CrlfSuffix(after: string)
    ensures ReplaceAll(if after != "" then "\n" + after else "\n", "\r\n", "\n")
      == (if after != "" then "\n" + ReplaceAll(after, "\r\n", "\n") else "\n")
  {
    if after != "" {
      ReplaceCrlfConcat("\n", after);
    }
  }

  /**
   * For a document and a table with no carriage return, only the span is replaced: the text
   * before it loses its trailing white space, the text after it its leading white space.
   */
  lemma MergeWithHeaderLf(original: string, table: string, start: nat, end: nat, before: string, after: string)
    requires TableSpan(original) == Some((start, end))
    requires start <= end <= |original|
    requires before == TrimEnd(original[..start]) && after == TrimStart(original[end..])
    requires '\r' !in original && '\r' !in table
    ensures MergeTableContents(original, table) ==
        (if before != "" then before + "\n" else "") + table + (if after != "" then "\n" + after else "\n")
  {
    TrimEndShape(original[..start]);
    TrimStartShape(original[end..]);
    assert table == [] || table[|table| - 1] in table;
    MergeWithHeader(original, table, start, end, before, after);
    NotInSlice(original, '\r', 0, start);
    NotInSlice(original[..start], '\r', 0, |before|);
    NotInSlice(original, '\r', end, |original|);
    NotInSlice(original[end..], '\r', |original[end..]| - |after|, |original[end..]|);
    NoCarriageReturn(before);
    NoCarriageReturn(table);
    NoCarriageReturn(after);
  }

  /** A slice holds nothing its sequence does not. */
  lemma NotInSlice<T>(s: seq<T>, x: T, i: int, j: int)
    requires x !in s && 0 <= i <= j <= |s|
    ensures x !in s[i..j]
  {
  }

  /** Text without a carriage return is left alone by the CRLF rewrite. */
  lemma NoCarriageReturn(s: string)
    requires '\r' !in s
    ensures ReplaceAll(s, "\r\n", "\n") == s
  {
    assert !Contains(s, "\r\n") by {
      forall i | 0 <= i <= |s| - 2
        ensures !OccursAt(s, "\r\n", i)
      {
        assert s[i..i + 2][0] == s[i] != '\r';
      }
    }
    ReplaceAllAbsent(s, "\r\n", "\n");
  }
}
