/**
 * The loader's pure half: dropping a byte-order mark, reading the customer table back out of
 * the Markdown document, and finding the JSON block of the template document.
 */
module MarkdownStore {
  import opened Wrappers
  import opened Text
  import opened Types
  import opened CustomerStore

  /** U+FEFF, the byte-order mark an editor may put in front of a UTF-8 file. */
  const Bom: char := '\U{FEFF}'

  /** `readUtf8File` after decoding: one leading byte-order mark is dropped. */
  function StripBom(text: string): (r: string)
    ensures text == r || text == [Bom] + r
    ensures text != [] && text[0] == Bom <==> text == [Bom] + r
  {
    if |text| > 0 && text[0] == Bom then text[1..] else text
  }

  /** Only the first mark goes; any text that starts with something else is kept whole. */
  lemma StripBomOnce(t: string)
    ensures StripBom([Bom] + t) == t
    ensures t == [] || t[0] != Bom ==> StripBom(t) == t
    ensures |StripBom(StripBom([Bom] + t))| == |t| - (if t != [] && t[0] == Bom then 1 else 0)
  {
    assert ([Bom] + t)[1..] == t;
  }

  /** The line that opens the table: it starts with '|' and mentions 顧客名. */
  predicate IsHeaderLine(line: string) {
    StartsWith(line, "|") && Contains(line, "顧客名")
  }

  /** A tag cell reads as set when it is '✓' or 'true'. */
  predicate IsMark(cell: string) {
    cell == "✓" || cell == "true"
  }

  /** The non-empty trimmed cells of a table line. */
  function LineCells(line: string): seq<string> {
    TrimmedNonEmpty(Split(line, '|'))
  }

  /** The record a data row stands for: cells in table order, the first thirteen used. */
  function RecordOfCells(cells: seq<string>): CustomerRecord
    requires |cells| >= 13
  {
    CustomerRecord(
      customerName := cells[0],
      lastContactDate := cells[6],
      nextAction := cells[1],
      scheduledDate := cells[7],
      contactUrl := cells[2],
      transactionCount := cells[8],
      totalAmount := cells[9],
      gender := cells[10],
      age := cells[11],
      notes := cells[12],
      hasHeart := IsMark(cells[3]),
      hasTrouble := IsMark(cells[4]),
      isFavorite := IsMark(cells[5]))
  }

  /** A text the parser can hand back: non-empty, trimmed, without '|'. */
  predicate CleanText(s: string) {
    s != [] && IsTrimmed(s) && '|' !in s
  }

  predicate CleanRecord(r: CustomerRecord) {
    forall g :: CleanText(GetText(r, g))
  }

  /** No text of the record holds `c`. */
  predicate RecordLacks(r: CustomerRecord, c: char) {
    forall g :: c !in GetText(r, g)
  }

  /** The cells of a line are clean texts, and a character the line lacks, its cells lack. */
  lemma LineCellsClean(line: string, c: char)
    ensures forall k :: 0 <= k < |LineCells(line)| ==> CleanText(LineCells(line)[k])
    ensures c !in line ==> forall k :: 0 <= k < |LineCells(line)| ==> c !in LineCells(line)[k]
  {
    var parts := Split(line, '|');
    TrimmedNonEmptyAbsent(parts, '|');
    TrimmedNonEmptyTrimmed(parts);
    if c !in line {
      SplitKeepsAbsent(line, c, '|');
      TrimmedNonEmptyAbsent(parts, c);
    }
  }

  lemma {:induction false} TrimmedNonEmptyTrimmed(parts: seq<string>)
    ensures forall k :: 0 <= k < |TrimmedNonEmpty(parts)| ==> IsTrimmed(TrimmedNonEmpty(parts)[k])
    decreases |parts|
  {
    if parts != [] {
      TrimmedNonEmptyTrimmed(parts[1..]);
      TrimIsTrimmed(parts[0]);
    }
  }

  /** Each text of the record is one of the cells. */
  lemma RecordOfCellsTexts(cells: seq<string>, g: TextField)
    requires |cells| >= 13
    ensures exists k :: 0 <= k < 13 && GetText(RecordOfCells(cells), g) == cells[k]
  {
    match g
    case CustomerName => assert GetText(RecordOfCells(cells), g) == cells[0];
    case NextAction => assert GetText(RecordOfCells(cells), g) == cells[1];
    case ContactUrl => assert GetText(RecordOfCells(cells), g) == cells[2];
    case LastContactDate => assert GetText(RecordOfCells(cells), g) == cells[6];
    case ScheduledDate => assert GetText(RecordOfCells(cells), g) == cells[7];
    case TransactionCount => assert GetText(RecordOfCells(cells), g) == cells[8];
    case TotalAmount => assert GetText(RecordOfCells(cells), g) == cells[9];
    case Gender => assert GetText(RecordOfCells(cells), g) == cells[10];
    case Age => assert GetText(RecordOfCells(cells), g) == cells[11];
    case Notes => assert GetText(RecordOfCells(cells), g) == cells[12];
  }

  lemma RecordOfLine(line: string, c: char)
    requires |LineCells(line)| >= 13
    ensures CleanRecord(RecordOfCells(LineCells(line)))
    ensures c !in line ==> RecordLacks(RecordOfCells(LineCells(line)), c)
  {
    var cells := LineCells(line);
    LineCellsClean(line, c);
    forall g
      ensures CleanText(GetText(RecordOfCells(cells), g))
      ensures c !in line ==> c !in GetText(RecordOfCells(cells), g)
    {
      RecordOfCellsTexts(cells, g);
    }
  }

  /**
   * The records read from the lines that remain, `inTable` telling whether the header has been
   * seen: before it every line is skipped; after it separator and blank lines are skipped, a
   * line not starting with '|' ends the table, and a row with fewer than thirteen cells is skipped.
   */
  function ParseLines(lines: seq<string>, inTable: bool): (records: seq<CustomerRecord>)
    ensures |records| <= |lines|
    ensures forall k :: 0 <= k < |records| ==> CleanRecord(records[k])
    decreases |lines|
  {
    if lines == [] then []
    else
      var line := Trim(lines[0]);
      if !inTable then ParseLines(lines[1..], IsHeaderLine(line))
      else if StartsWith(line, "|---") || line == "" then ParseLines(lines[1..], true)
      else if !StartsWith(line, "|") then []
      else
        var cells := LineCells(line);
        if |cells| < 13 then ParseLines(lines[1..], true)
        else
          RecordOfLine(line, '|');
          [RecordOfCells(cells)] + ParseLines(lines[1..], true)
  }

  lemma SplitLinesHaveNoLineFeed(text: string)
    ensures forall k :: 0 <= k < |SplitLines(text)| ==> '\n' !in SplitLines(text)[k]
  {
    var parts := Split(text, '\n');
    forall k | 0 <= k < |parts|
      ensures '\n' !in DropCR(parts[k])
    {
    }
  }

  /** A character no line holds, no record's text holds. */
  lemma {:induction false} ParsedLack(lines: seq<string>, inTable: bool, c: char)
    requires forall k :: 0 <= k < |lines| ==> c !in lines[k]
    ensures forall k :: 0 <= k < |ParseLines(lines, inTable)| ==> RecordLacks(ParseLines(lines, inTable)[k], c)
    decreases |lines|
  {
    if lines != [] {
      var line := Trim(lines[0]);
      ParsedLack(lines[1..], inTable, c);
      ParsedLack(lines[1..], true, c);
      ParsedLack(lines[1..], IsHeaderLine(line), c);
      TrimKeepsAbsent(lines[0], c);
      if |LineCells(line)| >= 13 {
        RecordOfLine(line, c);
      }
    }
  }

  /** The records of the customer document: clean texts, none holding a line feed. */
  function CustomerRecordsOf(markdownText: string): (records: seq<CustomerRecord>)
    ensures forall k :: 0 <= k < |records| ==> CleanRecord(records[k]) && RecordLacks(records[k], '\n')
  {
    SplitLinesHaveNoLineFeed(markdownText);
    ParsedLack(SplitLines(markdownText), false, '\n');
    ParseLines(SplitLines(markdownText), false)
  }

  /** `parseCustomerMarkdown`: one pass over the lines with a flag for having seen the header. */
  method ParseCustomerMarkdown(markdownText: string) returns (records: seq<CustomerRecord>)
    ensures records == CustomerRecordsOf(markdownText)
  {
    var lines := SplitLines(markdownText);
    records := [];
    var inTable := false;
    var i := 0;
    while i < |lines|
      invariant 0 <= i <= |lines|
      invariant records + ParseLines(lines[i..], inTable) == ParseLines(lines, false)
    {
      var line := Trim(lines[i]);
      ParseStep(lines, i, inTable);
      if !inTable {
        if IsHeaderLine(line) {
          inTable := true;
        }
        i := i + 1;
        continue;
      }
      if StartsWith(line, "|---") || line == "" {
        i := i + 1;
        continue;
      }
      if !StartsWith(line, "|") {
        assert records + [] == records;
        break;
      }
      var cells := TrimmedNonEmpty(Split(line, '|'));
      if |cells| < 13 {
        assert [] + ParseLines(lines[i + 1..], true) == ParseLines(lines[i + 1..], true);
        i := i + 1;
        continue;
      }
      AppendAssoc(records, [RecordOfCells(cells)], ParseLines(lines[i + 1..], true));
      records := records + [RecordOfCells(cells)];
      i := i + 1;
    }
    if i == |lines| {
      assert records + [] == records;
    }
  }

  /** One line's effect on the records read from line `i` on. */
  lemma ParseStep(lines: seq<string>, i: nat, inTable: bool)
    requires i < |lines|
    ensures var line := Trim(lines[i]);
      var next := ParseLines(lines[i + 1..], true);
      && (!inTable ==> ParseLines(lines[i..], false) == ParseLines(lines[i + 1..], IsHeaderLine(line)))
      && (inTable && (StartsWith(line, "|---") || line == "") ==> ParseLines(lines[i..], true) == next)
      && (inTable && !StartsWith(line, "|---") && line != "" && !StartsWith(line, "|") ==> ParseLines(lines[i..], true) == [])
      && (inTable && !StartsWith(line, "|---") && line != "" && StartsWith(line, "|") ==>
          ParseLines(lines[i..], true) ==
            (if |LineCells(line)| < 13 then [] else [RecordOfCells(LineCells(line))]) + next)
  {
    var rest := lines[i..];
    assert rest[0] == lines[i] && rest[1..] == lines[i + 1..];
    assert [] + ParseLines(lines[i + 1..], true) == ParseLines(lines[i + 1..], true);
  }

  /** A document without a header line has no records. */
  lemma {:induction false} NoHeaderNoRecords(lines: seq<string>)
    requires forall k :: 0 <= k < |lines| ==> !IsHeaderLine(Trim(lines[k]))
    ensures ParseLines(lines, false) == []
    decreases |lines|
  {
    if lines != [] {
      NoHeaderNoRecords(lines[1..]);
    }
  }

  /** Once in the table, a non-blank line that does not start with '|' ends it: nothing after it is read. */
  lemma {:induction false} TableEndsAtText(lines: seq<string>, stop: string, more: seq<string>)
    requires Trim(stop) != "" && !StartsWith(Trim(stop), "|")
    ensures ParseLines(lines + [stop] + more, true) == ParseLines(lines, true)
    decreases |lines|
  {
    var all := lines + [stop] + more;
    if lines == [] {
      assert all[0] == stop;
    } else {
      assert all[1..] == lines[1..] + [stop] + more;
      TableEndsAtText(lines[1..], stop, more);
    }
  }

  /** In the table, a blank or separator line is passed over. */
  lemma SkippedInTable(line: string, rest: seq<string>)
    requires Trim(line) == "" || StartsWith(Trim(line), "|---")
    ensures ParseLines([line] + rest, true) == ParseLines(rest, true)
  {
    assert ([line] + rest)[1..] == rest;
  }

  /** In the table, a row of fewer than thirteen cells is passed over; one of thirteen or more gives its record. */
  lemma RowInTable(line: string, rest: seq<string>)
    requires StartsWith(Trim(line), "|") && !StartsWith(Trim(line), "|---")
    ensures var cells := LineCells(Trim(line));
      ParseLines([line] + rest, true) ==
        (if |cells| < 13 then [] else [RecordOfCells(cells)]) + ParseLines(rest, true)
  {
    var l := [line] + rest;
    assert l[0] == line && l[1..] == rest;
    assert Trim(line) != "";
  }

  /** The opening and closing fences of the template document's JSON block. */
  const JsonFence := "```json"
  const Fence := "```"

  /**
   * The text captured by `/```json([\s\S]*?)```/`: what follows the first "```json" up to the
   * next "```". When the first opening fence has no closing fence after it, no later one has
   * either, so the whole match fails.
   */
  function TemplateBlock(text: string): (r: Option<string>)
    ensures r.None? <==> (!Contains(text, JsonFence) ||
      IndexOf(text, Fence, IndexOf(text, JsonFence, 0) + |JsonFence|) == -1)
    ensures r.Some? ==> exists p :: FirstBlockAt(text, p, r.value)
  {
    IndexOfContains(text, JsonFence);
    var p := IndexOf(text, JsonFence, 0);
    if p == -1 then None
    else
      var e := IndexOf(text, Fence, p + |JsonFence|);
      if e == -1 then None
      else
        assert FirstBlockAt(text, p, text[p + |JsonFence|..e]);
        Some(text[p + |JsonFence|..e])
  }

  /**
   * The first "```json" of `text` is at `p`, and `body` follows it up to the first "```" after
   * it.
   */
  predicate FirstBlockAt(text: string, p: int, body: string) {
    && 0 <= p && OccursAt(text, JsonFence, p)
    && (forall j :: 0 <= j < p ==> !OccursAt(text, JsonFence, j))
    && OccursAt(text, Fence, p + |JsonFence| + |body|)
    && body == text[p + |JsonFence|..p + |JsonFence| + |body|]
    && (forall j :: p + |JsonFence| <= j < p + |JsonFence| + |body| ==> !OccursAt(text, Fence, j))
  }

  /**
   * `parseTemplateMarkdown`: the templates `parseJson` reads from the JSON block, or none when
   * there is no block or it does not read as an array (`parseJson` stands for `JSON.parse`
   * followed by `Array.isArray`, giving None where that throws or is not an array).
   */
  function ParseTemplateMarkdown(text: string, parseJson: string -> Option<seq<TemplateDefinition>>): (r: seq<TemplateDefinition>)
    ensures TemplateBlock(text).None? ==> r == []
    ensures TemplateBlock(text).Some? && parseJson(TemplateBlock(text).value).Some? ==>
      r == parseJson(TemplateBlock(text).value).value
    ensures TemplateBlock(text).Some? && parseJson(TemplateBlock(text).value).None? ==> r == []
  {
    match TemplateBlock(text)
    case None => []
    case Some(jsonText) =>
      match parseJson(jsonText)
      case None => []
      case Some(parsed) => parsed
  }

  /** A document without "```json" has no templates. */
  lemma NoJsonBlockNoTemplates(text: string, parseJson: string -> Option<seq<TemplateDefinition>>)
    requires !Contains(text, JsonFence)
    ensures TemplateBlock(text) == None
    ensures ParseTemplateMarkdown(text, parseJson) == []
  {
  }

  /** The first occurrence found from `from` is the one at `q` when none comes between. */
  lemma IndexOfIs(s: string, f: string, from: nat, q: nat)
    requires from <= q && OccursAt(s, f, q)
    requires forall j :: from <= j < q ==> !OccursAt(s, f, j)
    ensures IndexOf(s, f, from) == q
  {
  }

  /** No occurrence of a fence starts inside a text without backquotes. */
  lemma NoFenceInside(t: string, x: string, at: nat, f: string)
    requires at + |x| <= |t| && t[at..at + |x|] == x && '`' !in x
    requires |f| > 0 && f[0] == '`'
    ensures forall j :: at <= j < at + |x| ==> !OccursAt(t, f, j)
  {
    forall j | at <= j < at + |x|
      ensures !OccursAt(t, f, j)
    {
      assert t[j] == x[j - at];
    }
  }

  /**
   * A block written as `pre` "```json" `body` "```" `post`, with no backquote in `pre` or `body`,
   * yields exactly `body`.
   */
  lemma TemplateBlockOf(t: string, pre: string, body: string, post: string)
    requires t == pre + JsonFence + body + Fence + post
    requires '`' !in pre && '`' !in body
    ensures TemplateBlock(t) == Some(body)
  {
    FenceLayout(t, pre, body, post);
    BlockBetweenFences(t, pre, body);
  }

  /** The same, stated on where the pieces lie in `t` rather than on how `t` is built. */
  lemma BlockBetweenFences(t: string, pre: string, body: string)
    requires var b := |pre| + |JsonFence|;
      && OccursAt(t, JsonFence, |pre|) && t[..|pre|] == pre
      && OccursAt(t, Fence, b + |body|) && t[b..b + |body|] == body
    requires '`' !in pre && '`' !in body
    ensures TemplateBlock(t) == Some(body)
  {
    var p := |pre|;
    var b := p + |JsonFence|;
    NoFenceInside(t, pre, 0, JsonFence);
    IndexOfIs(t, JsonFence, 0, p);
    NoFenceInside(t, body, b, Fence);
    IndexOfIs(t, Fence, b, b + |body|);
    TemplateBlockAt(t, p, b + |body|);
  }

  lemma TemplateBlockAt(text: string, p: nat, e: nat)
    requires IndexOf(text, JsonFence, 0) == p && IndexOf(text, Fence, p + |JsonFence|) == e
    requires p + |JsonFence| <= e <= |text|
    ensures TemplateBlock(text) == Some(text[p + |JsonFence|..e])
  {
  }

  lemma FenceLayout(t: string, pre: string, body: string, post: string)
    requires t == pre + JsonFence + body + Fence + post
    ensures var b := |pre| + |JsonFence|;
      && OccursAt(t, JsonFence, |pre|) && t[..|pre|] == pre
      && OccursAt(t, Fence, b + |body|) && t[b..b + |body|] == body
  {
    var b := |pre| + |JsonFence|;
    assert t[..|pre|] == pre;
    assert t[|pre|..b] == JsonFence;
    assert t[b..b + |body|] == body;
    assert t[b + |body|..b + |body| + |Fence|] == Fence;
  }
}
