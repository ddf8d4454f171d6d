/**
 * Saving and loading meet: the table the save endpoint writes reads back, through the loader's
 * parser, as the records it was written from, with empty texts shown as '-'.
 */
module TableRoundTrip {
  import opened Text
  import opened Types
  import opened CustomerStore
  import opened MarkdownStore

  /** A record the table can carry as it is: every text trimmed, without '|' or a line feed. */
  predicate Storable(r: CustomerRecord) {
    forall g :: IsTrimmed(GetText(r, g)) && '|' !in GetText(r, g) && '\n' !in GetText(r, g)
  }

  /** The cell shown for a text: '-' for the empty text. */
  function Filled(s: string): (r: string)
    ensures r != []
  {
    if s == "" then "-" else s
  }

  /** A record as the table gives it back: every empty text shown as '-'. */
  function Canonical(r: CustomerRecord): CustomerRecord {
    CustomerRecord(
      customerName := Filled(r.customerName),
      lastContactDate := Filled(r.lastContactDate),
      nextAction := Filled(r.nextAction),
      scheduledDate := Filled(r.scheduledDate),
      contactUrl := Filled(r.contactUrl),
      transactionCount := Filled(r.transactionCount),
      totalAmount := Filled(r.totalAmount),
      gender := Filled(r.gender),
      age := Filled(r.age),
      notes := Filled(r.notes),
      hasHeart := r.hasHeart,
      hasTrouble := r.hasTrouble,
      isFavorite := r.isFavorite)
  }

  /** Canonical form fills each text and keeps each tag. */
  lemma CanonicalFields(r: CustomerRecord, g: TextField, f: Flag)
    ensures GetText(Canonical(r), g) == Filled(GetText(r, g))
    ensures GetFlag(Canonical(r), f) == GetFlag(r, f)
  {
    match g
    case CustomerName =>
    case LastContactDate =>
    case NextAction =>
    case ScheduledDate =>
    case ContactUrl =>
    case TransactionCount =>
    case TotalAmount =>
    case Gender =>
    case Age =>
    case Notes =>
  }

  function CanonicalAll(rs: seq<CustomerRecord>): (cs: seq<CustomerRecord>)
    ensures |cs| == |rs| && forall k :: 0 <= k < |rs| ==> cs[k] == Canonical(rs[k])
  {
    seq(|rs|, k requires 0 <= k < |rs| => Canonical(rs[k]))
  }

  /** A record whose texts are all non-empty is its own canonical form. */
  lemma CanonicalOfFilled(r: CustomerRecord)
    requires forall g :: GetText(r, g) != ""
    ensures Canonical(r) == r
  {
    assert GetText(r, CustomerName) != "" && GetText(r, LastContactDate) != "" && GetText(r, NextAction) != "";
    assert GetText(r, ScheduledDate) != "" && GetText(r, ContactUrl) != "" && GetText(r, TransactionCount) != "";
    assert GetText(r, TotalAmount) != "" && GetText(r, Gender) != "" && GetText(r, Age) != "";
    assert GetText(r, Notes) != "";
  }

  /** Each cell surrounded by one space. */
  function Padded(cells: seq<string>): (p: seq<string>)
    ensures |p| == |cells| && forall k :: 0 <= k < |cells| ==> p[k] == " " + cells[k] + " "
  {
    seq(|cells|, k requires 0 <= k < |cells| => " " + cells[k] + " ")
  }

  lemma {:induction false} JoinPadded(cells: seq<string>)
    requires |cells| >= 1
    ensures Join(Padded(cells), "|") == " " + Join(cells, " | ") + " "
    decreases |cells|
  {
    if |cells| > 1 {
      JoinPadded(cells[1..]);
      assert Padded(cells)[1..] == Padded(cells[1..]);
    }
  }

  lemma {:induction false} JoinSnocEmpty(parts: seq<string>, sep: string)
    requires |parts| >= 1
    ensures Join(parts + [""], sep) == Join(parts, sep) + sep
    decreases |parts|
  {
    if |parts| > 1 {
      assert (parts + [""])[1..] == parts[1..] + [""];
      JoinSnocEmpty(parts[1..], sep);
    } else {
      assert (parts + [""])[1..] == [""];
    }
  }

  /** A table row is the padded cells joined by '|' between two empty pieces. */
  lemma RowAsJoin(cells: seq<string>)
    requires |cells| >= 1
    ensures "| " + Join(cells, " | ") + " |" == Join([""] + Padded(cells) + [""], "|")
  {
    var p := Padded(cells);
    assert [""] + p + [""] == [""] + (p + [""]);
    JoinConsEmpty(p + [""], "|");
    JoinSnocEmpty(p, "|");
    JoinPadded(cells);
    FrameConcat(Join(cells, " | "));
  }

  lemma JoinConsEmpty(parts: seq<string>, sep: string)
    requires |parts| >= 1
    ensures Join([""] + parts, sep) == "" + sep + Join(parts, sep)
  {
    assert ([""] + parts)[1..] == parts;
  }

  lemma FrameConcat(j: string)
    ensures "" + "|" + ((" " + j + " ") + "|") == "| " + j + " |"
  {
  }

  lemma {:induction false} TrimmedPadded(cells: seq<string>)
    requires forall k :: 0 <= k < |cells| ==> cells[k] != [] && IsTrimmed(cells[k])
    ensures TrimmedNonEmpty(Padded(cells) + [""]) == cells
    decreases |cells|
  {
    var l := Padded(cells) + [""];
    if cells == [] {
      assert l == [""];
    } else {
      assert l[1..] == Padded(cells[1..]) + [""];
      TrimmedPadded(cells[1..]);
      TrimPadded(" ", cells[0], " ");
    }
  }

  /** Splitting a row on '|' and keeping its non-empty trimmed pieces gives back its cells. */
  lemma RowCellsRead(cells: seq<string>)
    requires |cells| >= 1
    requires forall k :: 0 <= k < |cells| ==> CleanText(cells[k])
    ensures LineCells("| " + Join(cells, " | ") + " |") == cells
  {
    var parts := [""] + Padded(cells) + [""];
    RowAsJoin(cells);
    PaddedPieces(cells);
    SplitJoin(parts, '|');
    TrimmedFramed(cells);
  }

  lemma PaddedPieces(cells: seq<string>)
    requires forall k :: 0 <= k < |cells| ==> '|' !in cells[k]
    ensures forall k :: 0 <= k < |[""] + Padded(cells) + [""]| ==> '|' !in ([""] + Padded(cells) + [""])[k]
  {
    var parts := [""] + Padded(cells) + [""];
    forall k | 0 <= k < |parts|
      ensures '|' !in parts[k]
    {
      if 0 < k < |parts| - 1 {
        assert parts[k] == " " + cells[k - 1] + " ";
      }
    }
  }

  lemma TrimmedFramed(cells: seq<string>)
    requires forall k :: 0 <= k < |cells| ==> cells[k] != [] && IsTrimmed(cells[k])
    ensures TrimmedNonEmpty([""] + Padded(cells) + [""]) == cells
  {
    var parts := [""] + Padded(cells) + [""];
    assert parts[1..] == Padded(cells) + [""];
    assert Trim(parts[0]) == [];
    TrimmedPadded(cells);
  }

  /** A storable text is written as it is, or as '-' when empty. */
  lemma FormatStorable(s: string)
    requires IsTrimmed(s) && '|' !in s && '\n' !in s
    ensures FormatText(s) == Filled(s)
  {
    FormatTextProperties(s);
    if s != "" {
      assert !AllWhite(s) by {
        assert !IsWhite(s[0]);
      }
      TrimOfTrimmed(s);
    }
  }

  lemma FilledClean(s: string)
    requires IsTrimmed(s) && '|' !in s
    ensures CleanText(Filled(s))
  {
  }

  /** The mark a tag is written as. */
  function Mark(b: bool): string {
    if b then "✓" else "-"
  }

  lemma MarkRead(b: bool)
    ensures CleanText(Mark(b)) && IsMark(Mark(b)) == b
  {
  }

  /** The cell a storable record shows in a column. */
  function StoredCell(r: CustomerRecord, c: Column): string {
    match c
    case TextColumn(g) => Filled(GetText(r, g))
    case TagColumn(f) => Mark(GetFlag(r, f))
  }

  /** A storable record's cell in a column is the filled text or the tag's mark, a clean text either way. */
  lemma CellTextStorable(r: CustomerRecord, c: Column)
    requires Storable(r)
    ensures RowCells(r)[ColumnIndex(c)] == StoredCell(r, c) && CleanText(StoredCell(r, c))
  {
    assert RowCells(r)[ColumnIndex(c)] == CellText(r, c);
    match c
    case TextColumn(g) =>
      FormatStorable(GetText(r, g));
      FilledClean(GetText(r, g));
    case TagColumn(f) =>
      MarkRead(GetFlag(r, f));
  }

  lemma RowCellsClean(r: CustomerRecord)
    requires Storable(r)
    ensures forall k :: 0 <= k < |RowCells(r)| ==> CleanText(RowCells(r)[k])
  {
    forall k | 0 <= k < 13
      ensures CleanText(RowCells(r)[k])
    {
      CellTextStorable(r, ColumnKeys[k]);
      assert ColumnIndex(ColumnKeys[k]) == k by {
        ColumnKeysDistinct(ColumnIndex(ColumnKeys[k]), k);
      }
    }
  }

  lemma RowCellsRecord(r: CustomerRecord)
    requires Storable(r)
    ensures RecordOfCells(RowCells(r)) == Canonical(r)
  {
    forall c
      ensures RowCells(r)[ColumnIndex(c)] == StoredCell(r, c)
    {
      CellTextStorable(r, c);
    }
    RecordFromCells(RowCells(r), r);
  }

  /** Cells that hold, column by column, what a record shows read back as its canonical form. */
  lemma RecordFromCells(cells: seq<string>, r: CustomerRecord)
    requires |cells| == 13
    requires forall c :: cells[ColumnIndex(c)] == StoredCell(r, c)
    ensures RecordOfCells(cells) == Canonical(r)
  {
    assert cells[0] == Filled(r.customerName) by {
      assert cells[ColumnIndex(TextColumn(CustomerName))] == StoredCell(r, TextColumn(CustomerName));
    }
    assert cells[1] == Filled(r.nextAction) by {
      assert cells[ColumnIndex(TextColumn(NextAction))] == StoredCell(r, TextColumn(NextAction));
    }
    assert cells[2] == Filled(r.contactUrl) by {
      assert cells[ColumnIndex(TextColumn(ContactUrl))] == StoredCell(r, TextColumn(ContactUrl));
    }
    assert IsMark(cells[3]) == r.hasHeart by {
      assert cells[ColumnIndex(TagColumn(HasHeart))] == StoredCell(r, TagColumn(HasHeart));
      MarkRead(r.hasHeart);
    }
    assert IsMark(cells[4]) == r.hasTrouble by {
      assert cells[ColumnIndex(TagColumn(HasTrouble))] == StoredCell(r, TagColumn(HasTrouble));
      MarkRead(r.hasTrouble);
    }
    assert IsMark(cells[5]) == r.isFavorite by {
      assert cells[ColumnIndex(TagColumn(IsFavorite))] == StoredCell(r, TagColumn(IsFavorite));
      MarkRead(r.isFavorite);
    }
    assert cells[6] == Filled(r.lastContactDate) by {
      assert cells[ColumnIndex(TextColumn(LastContactDate))] == StoredCell(r, TextColumn(LastContactDate));
    }
    assert cells[7] == Filled(r.scheduledDate) by {
      assert cells[ColumnIndex(TextColumn(ScheduledDate))] == StoredCell(r, TextColumn(ScheduledDate));
    }
    assert cells[8] == Filled(r.transactionCount) by {
      assert cells[ColumnIndex(TextColumn(TransactionCount))] == StoredCell(r, TextColumn(TransactionCount));
    }
    assert cells[9] == Filled(r.totalAmount) by {
      assert cells[ColumnIndex(TextColumn(TotalAmount))] == StoredCell(r, TextColumn(TotalAmount));
    }
    assert cells[10] == Filled(r.gender) by {
      assert cells[ColumnIndex(TextColumn(Gender))] == StoredCell(r, TextColumn(Gender));
    }
    assert cells[11] == Filled(r.age) by {
      assert cells[ColumnIndex(TextColumn(Age))] == StoredCell(r, TextColumn(Age));
    }
    assert cells[12] == Filled(r.notes) by {
      assert cells[ColumnIndex(TextColumn(Notes))] == StoredCell(r, TextColumn(Notes));
    }
  }

  /** The frame `| … |` makes a trimmed line that starts with '|' and not with '|---'. */
  lemma Framed(x: string)
    ensures var line := "| " + x + " |";
      && Trim(line) == line && StartsWith(line, "|") && !StartsWith(line, "|---") && line != ""
  {
    var line := "| " + x + " |";
    assert line[0] == '|' && line[1] == ' ' && line[|line| - 1] == '|';
    TrimOfTrimmed(line);
    assert line[..1] == "|";
  }

  /** A line `| c1 | … | cn |` of clean cells is a data row of those cells. */
  lemma FramedRow(cells: seq<string>)
    requires |cells| >= 1
    requires forall k :: 0 <= k < |cells| ==> CleanText(cells[k])
    ensures var line := "| " + Join(cells, " | ") + " |";
      && Trim(line) == line && StartsWith(line, "|") && !StartsWith(line, "|---") && line != ""
      && LineCells(line) == cells
  {
    RowCellsRead(cells);
    Framed(Join(cells, " | "));
  }

  /** A storable record's row reads back as the canonical record. */
  lemma RowReadsBack(r: CustomerRecord)
    requires Storable(r)
    ensures RowParsesTo(Row(r), Canonical(r))
  {
    RowCellsClean(r);
    RowCellsRecord(r);
    FramedRow(RowCells(r));
  }

  /** A line that reads, inside the table, as exactly the record `rec`. */
  predicate RowParsesTo(line: string, rec: CustomerRecord) {
    && Trim(line) == line && StartsWith(line, "|") && !StartsWith(line, "|---") && line != ""
    && |LineCells(line)| >= 13 && RecordOfCells(LineCells(line)) == rec
  }

  lemma {:induction false} LinesParse(lines: seq<string>, recs: seq<CustomerRecord>)
    requires |lines| == |recs|
    requires forall k :: 0 <= k < |lines| ==> RowParsesTo(lines[k], recs[k])
    ensures ParseLines(lines, true) == recs
    decreases |lines|
  {
    if lines != [] {
      var tailLines, tailRecs := lines[1..], recs[1..];
      LinesParse(tailLines, tailRecs);
      RowLineParse(lines[0], recs[0], tailLines);
      HeadAndTail(lines);
      HeadAndTail(recs);
    }
  }

  lemma HeadAndTail<T>(s: seq<T>)
    requires s != []
    ensures s == [s[0]] + s[1..]
  {
  }

  lemma RowLineParse(line: string, rec: CustomerRecord, rest: seq<string>)
    requires RowParsesTo(line, rec)
    ensures ParseLines([line] + rest, true) == [rec] + ParseLines(rest, true)
  {
    RowInTable(line, rest);
  }

  lemma RowsReadBack(rs: seq<CustomerRecord>)
    requires forall k :: 0 <= k < |rs| ==> Storable(rs[k])
    ensures ParseLines(Rows(rs), true) == CanonicalAll(rs)
  {
    var rows := Rows(rs);
    var cs := CanonicalAll(rs);
    forall k | 0 <= k < |rs|
      ensures RowParsesTo(rows[k], cs[k])
    {
      RowReadsBack(rs[k]);
    }
    LinesParse(rows, cs);
  }

  /** The header opens the table, and the separator under it is passed over. */
  lemma FixedLinesRead()
    ensures Trim(TableHeader) == TableHeader && IsHeaderLine(TableHeader)
    ensures Trim(TableSeparator) == TableSeparator && StartsWith(TableSeparator, "|---")
  {
    HeaderRead();
    SeparatorRead();
  }

  lemma HeaderRead()
    ensures Trim(TableHeader) == TableHeader && IsHeaderLine(TableHeader)
  {
    assert TableHeader[0] == '|' && TableHeader[|TableHeader| - 1] == '|';
    TrimOfTrimmed(TableHeader);
    assert TableHeader[..1] == "|";
    assert TableHeader[2] == '顧' && TableHeader[3] == '客' && TableHeader[4] == '名';
    assert OccursAt(TableHeader, "顧客名", 2);
  }

  lemma SeparatorRead()
    ensures Trim(TableSeparator) == TableSeparator && StartsWith(TableSeparator, "|---")
  {
    assert TableSeparator[0] == '|' && TableSeparator[|TableSeparator| - 1] == '|';
    TrimOfTrimmed(TableSeparator);
    assert TableSeparator[1] == '-' && TableSeparator[2] == '-' && TableSeparator[3] == '-';
    assert TableSeparator[..4] == "|---";
  }

  /** The table `buildMarkdownTable` writes reads back as the canonical records, in order. */
  lemma TableReadsBack(rs: seq<CustomerRecord>)
    requires forall k :: 0 <= k < |rs| ==> Storable(rs[k])
    ensures CustomerRecordsOf(BuildMarkdownTable(rs)) == CanonicalAll(rs)
  {
    TableLines(rs);
    HeaderThenRows(Rows(rs));
    RowsReadBack(rs);
  }

  lemma HeaderThenRows(rows: seq<string>)
    ensures ParseLines([TableHeader, TableSeparator] + rows, false) == ParseLines(rows, true)
  {
    var lines := [TableHeader, TableSeparator] + rows;
    FixedLinesRead();
    assert lines[0] == TableHeader && lines[1..][0] == TableSeparator;
    assert lines[1..][1..] == rows;
  }

  /** Loading, saving and loading again gives what the first load gave. */
  lemma ReloadIsStable(text: string)
    ensures var rs := CustomerRecordsOf(text);
      CustomerRecordsOf(BuildMarkdownTable(rs)) == rs
  {
    var rs := CustomerRecordsOf(text);
    forall k | 0 <= k < |rs|
      ensures Storable(rs[k]) && Canonical(rs[k]) == rs[k]
    {
      CanonicalOfFilled(rs[k]);
    }
    TableReadsBack(rs);
  }

  /**
   * A '|' inside a text is written escaped as '\|', but the reader splits on every '|': the
   * text comes back as two cells, the first ending in the backslash.
   */
  lemma EscapedPipeSplitsCell(x: string, y: string)
    requires x != "" && y != "" && IsTrimmed(x) && IsTrimmed(y)
    requires '|' !in x && '|' !in y && '\n' !in x && '\n' !in y
    ensures FormatText(x + "|" + y) == x + "\\|" + y
    ensures LineCells("| " + FormatText(x + "|" + y) + " |") == [x + "\\", y]
  {
    EscapedPipeWritten(x, y);
    EscapedPipeRead(x, y, x + "\\|" + y);
  }

  lemma EscapedPipeWritten(x: string, y: string)
    requires x != "" && y != "" && IsTrimmed(x) && IsTrimmed(y)
    requires '|' !in x && '|' !in y && '\n' !in x && '\n' !in y
    ensures FormatText(x + "|" + y) == x + "\\|" + y
  {
    var s := x + "|" + y;
    var e := x + "\\|" + y;
    EscapeOnePipe(x, y);
    assert '\n' !in s;
    assert JoinLines(s) == s;
    EndsOfJoined(x, "|", y);
    EndsOfJoined(x, "\\|", y);
    TrimOfTrimmed(s);
    TrimOfTrimmed(e);
  }

  lemma EscapeOnePipe(x: string, y: string)
    requires '|' !in x && '|' !in y
    ensures EscapePipes(x + "|" + y) == x + "\\|" + y
  {
    EscapePipesAppend(x, "|" + y);
    EscapePipesAppend("|", y);
    assert x + "|" + y == x + ("|" + y);
    assert EscapePipes("|") == "\\|";
  }

  /** Text between two trimmed non-empty ends is trimmed and non-empty. */
  lemma EndsOfJoined(x: string, m: string, y: string)
    requires x != "" && y != "" && IsTrimmed(x) && IsTrimmed(y)
    ensures IsTrimmed(x + m + y) && x + m + y != ""
  {
    var s := x + m + y;
    assert s[0] == x[0] && s[|s| - 1] == y[|y| - 1];
  }

  lemma EscapedPipeRead(x: string, y: string, e: string)
    requires x != "" && y != "" && IsTrimmed(x) && IsTrimmed(y)
    requires '|' !in x && '|' !in y && e == x + "\\|" + y
    ensures LineCells("| " + e + " |") == [x + "\\", y]
  {
    var a := " " + x + "\\";
    var b := y + " ";
    assert "| " + e + " |" == "|" + a + "|" + b + "|";
    SplitThree(a, b);
    EndsOfJoined(x, "", "\\");
    TrimPadded(" ", x + "\\", "");
    TrimPadded("", y, " ");
    assert " " + (x + "\\") + "" == a;
    assert "" + y + " " == b;
    TrimmedThree(a, b);
  }

  lemma SplitThree(a: string, b: string)
    requires '|' !in a && '|' !in b
    ensures Split("|" + a + "|" + b + "|", '|') == ["", a, b, ""]
  {
    JoinThree(a, b);
    SplitJoinThree(a, b, "|" + a + "|" + b + "|");
  }

  lemma SplitJoinThree(a: string, b: string, line: string)
    requires '|' !in a && '|' !in b && line == Join(["", a, b, ""], "|")
    ensures Split(line, '|') == ["", a, b, ""]
  {
    assert "|" == ['|'];
    SplitJoin(["", a, b, ""], '|');
  }

  lemma JoinThree(a: string, b: string)
    ensures Join(["", a, b, ""], "|") == "|" + a + "|" + b + "|"
  {
    var parts := ["", a, b, ""];
    assert parts[1..][1..][1..] == [""];
    assert Join(parts[1..][1..], "|") == b + "|" + "";
    assert Join(parts[1..], "|") == a + "|" + (b + "|" + "");
    assert Join(parts, "|") == "" + "|" + (a + "|" + (b + "|" + ""));
  }

  lemma TrimmedThree(a: string, b: string)
    requires Trim(a) != [] && Trim(b) != []
    ensures TrimmedNonEmpty(["", a, b, ""]) == [Trim(a), Trim(b)]
  {
    var parts := ["", a, b, ""];
    TrimOfTrimmed("");
    assert TrimmedNonEmpty(parts[3..]) == [];
    assert TrimmedNonEmpty(parts[2..]) == [Trim(b)] by {
      assert parts[2..][1..] == parts[3..];
    }
    assert TrimmedNonEmpty(parts[1..]) == [Trim(a), Trim(b)] by {
      assert parts[1..][1..] == parts[2..];
    }
  }

  lemma {:induction false} EscapePipesAppend(a: string, b: string)
    ensures EscapePipes(a + b) == EscapePipes(a) + EscapePipes(b)
    decreases |a|
  {
    if a != [] {
      assert (a + b)[0] == a[0] && (a + b)[1..] == a[1..] + b;
      EscapePipesAppend(a[1..], b);
    } else {
      assert a + b == b;
    }
  }
}
