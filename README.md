# Customer follow-up dashboard: a Dafny model of its business rules

The system is a small sales dashboard. It keeps customer records in a Markdown table inside a
Markdown file. A browser page lets the user filter, sort and edit the rows and compose outreach
messages from templates. A save endpoint writes the table back into the file. A notification
endpoint selects the customers due today or tomorrow and posts a numbered list to a Discord webhook.

This project models the sequential logic of four source files as Dafny definitions, and proves
properties about them:

- **The follow-up rule** (`FollowUp`, `ContactDates`, `RouteDates`, `Calendar`).
  - A next-action label picks a day offset; 完了 means no date.
  - The offset is added to the last contact day.
  - A day that is already past is moved forward from today.
  - The rule appears twice, once in the dashboard and once in the notification endpoint. Each
    copy has its own date parser. `DateAgreement` proves that the two agree wherever both parsers
    accept a text, and names the forms only one of them accepts.
- **Dates.** A date is an integer day number, with day 0 = 1970-01-01. It is converted to and from
  the proleptic Gregorian calendar.
  - `new Date(y, m - 1, d)` is `Calendar.MakeDay`. As in ECMAScript, month and day overflow carry,
    and years 0–99 mean 1900–1999.
  - The current moment is a parameter `Now(today, pastMidnight)`. A candidate date stands at its own
    midnight, so a candidate equal to today is "before now" once the day has begun.
- **The notification check** (`NotifySelect`, `NotifyMessage`).
  - It selects the due customers.
  - It sorts them stably by action priority.
  - It assembles the message, delivers it, and builds the endpoint's reply.
- **The Markdown table store** (`CustomerStore`, `MarkdownStore`, `TableRoundTrip`).
  - It normalises a record, formats cells, renders the table and splices it into a document.
  - It parses a document's table back into records.
  - It extracts the template block.
  - `TableRoundTrip` proves that a saved table reads back as the records it was written from.
    It also proves that loading, saving and loading again is stable.
- **The dashboard's pure and list logic** (`Amounts`, `Templates`, `ListView`, `Editing`).
  - The amount parser, template selection, the contact and link parser, the greeting and the
    placeholder substitution.
  - The filter predicate and the sort-column values.
  - The summary figures.
  - The list state as a class: cell edits, tag toggles and the sort choice.

`Text` writes out the JavaScript string primitives the code relies on, on `seq<char>`.
`Types` holds the record shapes. `Wrappers` holds `Option`, which stands for `null` and `undefined`.

Source paths below are relative to the repository root. In the third column, "the source" means the
cited lines.

## Model

| member | source | states |
|---|---|---|
| Types.WithText | next-app/src/components/CustomerManager.tsx:246 | `{ ...r, [f]: v }` on a text key: that key takes `v`; every other key and every tag keeps its value |
| Types.WithFlag | next-app/src/components/CustomerManager.tsx:276 | `{ ...r, [f]: b }` on a tag key: that tag takes `b`; every other tag and every text keeps its value |
| Types.RecordExtensionality | next-app/src/lib/types.ts:1-15 | two records that agree on all ten texts and three tags are the same record |
| Text.TrimStartShape | next-app/src/app/api/customers/route.ts:132 | `trimStart` leaves a suffix of the input that does not start with white space, and drops only white space |
| Text.TrimEndShape | next-app/src/app/api/customers/route.ts:142 | `trimEnd` leaves a prefix of the input that does not end with white space, and drops only white space |
| Text.TrimEmptyIff | next-app/src/app/api/customers/route.ts:114 | the trimmed text is empty exactly when the input is all white space |
| Text.IndexOf | next-app/src/app/api/customers/route.ts:152 | `indexOf(p, from)` is an occurrence at or after the clamped start with none before it, or -1 when there is no occurrence |
| Text.Split | next-app/src/lib/markdown.ts:53 | `split(c)` gives at least one piece; no piece contains `c`; joining the pieces with `c` gives the input back |
| Text.SplitJoin | next-app/src/lib/markdown.ts:53 | splitting on `c` undoes joining with `c` when no piece contains `c` |
| Text.SplitLinesJoin | next-app/src/lib/markdown.ts:29 | `split(/\r?\n/)` gives back the lines that were joined with '\n' |
| Text.ReplaceAllFirst | next-app/src/app/api/customers/route.ts:148 | a global literal replace rewrites the first occurrence and then goes on after it |
| Text.ReplaceCrlfConcat | next-app/src/app/api/customers/route.ts:148 | `replace(/\r\n/g, '\n')` on a concatenation is the concatenation of the replaced pieces when the first piece does not end in a carriage return |
| Text.ParseIntNatToString | next-app/src/components/CustomerManager.tsx:343 | `parseInt(String(n), 10)` is `n` |
| Text.NatToString | next-app/src/components/CustomerManager.tsx:1695 | `String(n)` is a non-empty digit string worth `n`, with no leading zero when `n` ≥ 10 |
| Text.PadStart2 | next-app/src/components/CustomerManager.tsx:1695 | `padStart(2, '0')` places the text at the end of a field of length max(2, length), filled with '0' |
| Calendar.CivilFromDays | next-app/src/components/CustomerManager.tsx:1694-1696 | every day number has a valid calendar date, and that date counts back to the day |
| Calendar.CivilRoundTrip | next-app/src/components/CustomerManager.tsx:1694-1696 | a valid calendar date converted to its day number and back is the same date |
| Calendar.CivilUnique | next-app/src/components/CustomerManager.tsx:1694-1696 | two valid dates with the same day number are equal |
| Calendar.MakeDayOfValid | next-app/src/components/CustomerManager.tsx:1795 | `new Date(y, m - 1, d)` of a valid date whose year is not in 0..99 is that date's day |
| Calendar.FormatSlashDateInjective | next-app/src/components/CustomerManager.tsx:1693-1697 | two days with the same `YYYY/MM/DD` text are the same day |
| Calendar.CivilTextInjective | next-app/src/components/CustomerManager.tsx:1693-1697 | two valid dates with the same `YYYY/MM/DD` text are the same date |
| Calendar.DateTextMarksInvalid | next-app/src/components/CustomerManager.tsx:1693-1697 | the printed date is 'NaN/NaN/NaN' exactly for an Invalid Date, a day past ±100,000,000; a valid day prints as its non-empty `YYYY/MM/DD` |
| Calendar.FourDigitCivil | next-app/src/components/CustomerManager.tsx:1693-1697 | a date with a four-digit year prints as a four-, two- and two-digit group that hold its year, month and day, inside the range of `Date` |
| FollowUp.ActionOffsetIsTableLookup | next-app/src/components/CustomerManager.tsx:1664-1680 | the `if` chain on the label is a first-match lookup in the keyword table (リコンタクト 5, フォローアップ 9, 新規提案 14, リマインド 14, クロージング 7), then 完了 gives none, then 14 |
| FollowUp.ActionOffsetBounds | next-app/src/components/CustomerManager.tsx:1664-1680 | an offset lies in 5..14; there is no offset exactly when no keyword matches and the label contains 完了 |
| FollowUp.FollowUpDay | next-app/src/components/CustomerManager.tsx:1683-1690 | from a valid day: `last + offset` unless that midnight is before now, in which case `today + offset`, so never before today; an Invalid Date stays as it is; the result is a valid date exactly when the start is and the day does not pass the end of the range |
| FollowUp.ScheduledDayShape | next-app/src/components/CustomerManager.tsx:1647-1690 | no day exactly when the action is unset, the date is missing, or the label has no offset; from a valid date the day is not before today, comes from the label's offset, and is valid exactly when it does not pass the end of the range; an invalid date stays invalid |
| FollowUp.ContactTodayGivesOffset | next-app/src/components/CustomerManager.tsx:1683-1690 | a contact made today schedules today plus the offset |
| FollowUp.OverdueSnapsForward | next-app/src/components/CustomerManager.tsx:1686-1690 | an overdue `last + offset` from a valid date moves to `today + offset` |
| ContactDates.NormalizeContactDate | next-app/src/components/CustomerManager.tsx:1786 | the normalised text holds none of 年, 月, 日 or white space, and is no longer than the input |
| ContactDates.ParseLastContactDate | next-app/src/components/CustomerManager.tsx:1782-1800 | '', '-' and 未設定 give null; any date it gives is inside the range of `Date` |
| ContactDates.JapaneseFormIsSlashForm | next-app/src/components/CustomerManager.tsx:1786 | `Y年M月D日` reads exactly as `Y/M/D` |
| ContactDates.ParseDigitTriple | next-app/src/components/CustomerManager.tsx:1787-1799 | a `YYYY/MM/DD` digit text with non-zero parts, inside the range, is `new Date(Y, M - 1, D)` |
| ContactDates.ParseFormattedDate | next-app/src/components/CustomerManager.tsx:1693-1697 | the text the rule writes for a day with a four-digit year parses back to that day |
| ContactDates.CalculateScheduledDate | next-app/src/components/CustomerManager.tsx:1647-1698 | the method's reassignments of `daysToAdd` and the date compute the scheduled-date text |
| ContactDates.ScheduledDateTextCases | next-app/src/components/CustomerManager.tsx:1647-1698 | '' exactly when the action is unset, the date does not parse, or no offset applies |
| ContactDates.ScheduledDateTextDay | next-app/src/components/CustomerManager.tsx:1683-1697 | otherwise the text belongs to `last + offset`, or `today + offset` when that is over, a day not before today; it is 'NaN/NaN/NaN' exactly when that day passes the end of the range, and that day's `YYYY/MM/DD` otherwise |
| ContactDates.NoScheduledDateText | next-app/src/components/CustomerManager.tsx:1651-1659 | an empty or 未設定 action, or an unparsable last contact date, gives '' |
| ContactDates.SomeScheduledDateText | next-app/src/components/CustomerManager.tsx:1683-1697 | with a parsed date and an offset, the text is the follow-up day printed as `YYYY/MM/DD`, or 'NaN/NaN/NaN' once it is an Invalid Date |
| ContactDates.ScheduledDateTextReparses | next-app/src/components/CustomerManager.tsx:1693-1697 | re-parsing the written text of a day with a four-digit year gives the scheduled day |
| ContactDates.FormatDateForInput | next-app/src/components/CustomerManager.tsx:1616-1634 | '', '-' and 未設定 give ''; any other result has the shape `YYYY-…` |
| ContactDates.ForInputOfDigitTriple | next-app/src/components/CustomerManager.tsx:1616-1634 | a stored `YYYY/MM/DD` digit text shows as `YYYY-MM-DD` |
| ContactDates.FormatDateFromInput | next-app/src/components/CustomerManager.tsx:1636-1645 | '' stays ''; a value without '-' is returned unchanged |
| ContactDates.FromInputOfDashTriple | next-app/src/components/CustomerManager.tsx:1636-1645 | three non-empty dash-free parts joined by '-' come back joined by '/' |
| ContactDates.InputRoundTrip | next-app/src/components/CustomerManager.tsx:1616-1645 | converting a shown input value back only turns its two '-' into '/' |
| ContactDates.FormattedDateThroughInput | next-app/src/components/CustomerManager.tsx:1616-1645 | a stored `YYYY/MM/DD` date goes to the date input as `YYYY-MM-DD` and comes back as the same text |
| RouteDates.MatchMonthDay | next-app/src/app/api/notifications/check/route.ts:13 | a match of `^(\d{1,2})[/-](\d{1,2})$` is two groups of one or two digits around one separator |
| RouteDates.MatchMonthDayComplete | next-app/src/app/api/notifications/check/route.ts:13 | every text of that shape matches, with its two groups |
| RouteDates.MatchFullDate | next-app/src/app/api/notifications/check/route.ts:12 | a match of `^(\d{4})[/-](\d{1,2})[/-](\d{1,2})$` is three digit groups of the stated lengths |
| RouteDates.MatchFullDateComplete | next-app/src/app/api/notifications/check/route.ts:12 | every text of that shape matches, with its three groups |
| RouteDates.PatternsExclusive | next-app/src/app/api/notifications/check/route.ts:11-28 | no text matches both patterns, so the order they are tried in does not matter |
| RouteDates.ParseDate | next-app/src/app/api/notifications/check/route.ts:6-31 | '' and '-' give null; a date exactly when one of the two patterns matches |
| RouteDates.ParseFullDate | next-app/src/app/api/notifications/check/route.ts:19-21 | `YYYY/M/D` or `YYYY-M-D` reads as `new Date(Y, M - 1, D)` |
| RouteDates.ParseShortDate | next-app/src/app/api/notifications/check/route.ts:22-25 | `M/D` reads as `new Date(currentYear, M - 1, D)` |
| RouteDates.ParseFormattedDate | next-app/src/app/api/notifications/check/route.ts:176-180 | a day printed as `YYYY/MM/DD` parses back to the same day |
| RouteDates.CalculateScheduledDate | next-app/src/app/api/notifications/check/route.ts:47-94 | the route's copy gives the shared rule's day for its own parse of the last contact date |
| RouteDates.DaysToAdd | next-app/src/app/api/notifications/check/route.ts:64-80 | the route's `if` chain gives the same offset as the dashboard's |
| RouteDates.ScheduleFrom | next-app/src/app/api/notifications/check/route.ts:56-93 | the rest of the route's copy, once the date has been parsed, follows the shared rule |
| RouteDates.ComputedDayInWindow | next-app/src/app/api/notifications/check/route.ts:34-44 | a computed day inside the one-day window was not moved forward, and once today has begun it is tomorrow |
| RouteDates.SnappedDayOutsideWindow | next-app/src/app/api/notifications/check/route.ts:82-91 | a day moved forward from a valid date is at least five days ahead, and an Invalid Date stays invalid; neither passes the one-day window |
| DateAgreement.ParsersAgree | next-app/src/app/api/notifications/check/route.ts:6-31 | where the route parser and the dashboard parser both accept a text they give the same day, and the text is a full date written with '/' |
| DateAgreement.BothAcceptSlashDate | next-app/src/components/CustomerManager.tsx:1782-1800 | a full `Y/M/D` date with non-zero parts inside the range reads alike in both parsers |
| DateAgreement.OnlyRouteReadsDashesAndShortForm | next-app/src/app/api/notifications/check/route.ts:11-14 | the route reads `Y-M-D` and `M/D`; the dashboard reads neither |
| DateAgreement.OnlyDashboardReadsJapaneseForm | next-app/src/components/CustomerManager.tsx:1786 | the dashboard reads `Y年M月D日`; the route does not |
| DateAgreement.DashboardRejectsShortForm | next-app/src/components/CustomerManager.tsx:1788-1790 | the dashboard never reads `M/D`, because it needs three parts |
| NotifySelect.DueDay | next-app/src/app/api/notifications/check/route.ts:107-117 | the due day is the parsed stored date or the computed one |
| NotifySelect.DueDayPrefersStored | next-app/src/app/api/notifications/check/route.ts:107-117 | a stored date that parses is used; otherwise the day is computed from the last contact date |
| NotifySelect.DueDate | next-app/src/app/api/notifications/check/route.ts:107-117 | the loop body's `let scheduledDate` reassignments compute the due day |
| NotifySelect.GetCustomersToNotify | next-app/src/app/api/notifications/check/route.ts:97-125 | the loop that pushes into `targetCustomers` computes the order-preserving selection |
| NotifySelect.NotifyListMembers | next-app/src/app/api/notifications/check/route.ts:97-125 | a record is selected exactly when it is in the input and due |
| NotifySelect.NotifyListAppend | next-app/src/app/api/notifications/check/route.ts:97-125 | the selection of a concatenation is the concatenation of the selections, so input order is kept |
| NotifySelect.NotifyListIdempotent | next-app/src/app/api/notifications/check/route.ts:97-125 | selecting twice selects the same customers |
| NotifySelect.NotifiedAreDue | next-app/src/app/api/notifications/check/route.ts:101-122 | a selected customer has an action other than '', 完了 and '-', and a due day of today or tomorrow |
| NotifySelect.PriorityRank | next-app/src/app/api/notifications/check/route.ts:142-155 | the rank is one of the table's ranks or 999, and below 999 exactly for the seven listed labels |
| NotifySelect.PriorityOrder | next-app/src/app/api/notifications/check/route.ts:142-150 | リコンタクト < クロージング < フォローアップ < リマインド < 新規提案 < リピート提案 < 取引中 |
| NotifySelect.SortByPriorityCorrect | next-app/src/app/api/notifications/check/route.ts:152-156 | the sort is ordered by rank, is a permutation, and keeps input order within each rank |
| NotifyMessage.BuildMessage | next-app/src/app/api/notifications/check/route.ts:159-206 | the `message +=` loop builds the title, the count line and the numbered entries |
| NotifyMessage.BuildEntry | next-app/src/app/api/notifications/check/route.ts:166-205 | one `forEach` step builds the `k`-th block |
| NotifyMessage.BuildScheduleLine | next-app/src/app/api/notifications/check/route.ts:170-190 | the scheduled-date line shows the stored date, or the computed one marked ' (計算値)' |
| NotifyMessage.EntryBlocks | next-app/src/app/api/notifications/check/route.ts:166-205 | there is one entry block per customer |
| NotifyMessage.MessageHasEntry | next-app/src/app/api/notifications/check/route.ts:166-205 | the `i`-th customer's block, numbered `i + 1`, stands in the message after the blocks before it |
| NotifyMessage.ScheduleLineCases | next-app/src/app/api/notifications/check/route.ts:170-190 | a date is shown exactly when one is stored or can be computed; ' (計算値)' is added exactly when the stored date is missing or '-' |
| NotifyMessage.ShownDateIsDueDay | next-app/src/app/api/notifications/check/route.ts:175-181 | a computed date shown for a selected customer reads back as that customer's due day |
| NotifyMessage.UnparsedStoredDateShownAsTyped | next-app/src/app/api/notifications/check/route.ts:172-173 | a stored date that does not parse is shown as typed, although the computed day decided the selection |
| NotifyMessage.SendDiscordNotification | next-app/src/app/api/notifications/check/route.ts:129-224 | no webhook address fails first; an empty list sends nothing; otherwise the sorted list's message is posted, and a non-OK reply is an error; the sorted list is a permutation |
| NotifyMessage.CheckNotifications | next-app/src/app/api/notifications/check/route.ts:227-286 | test mode reports the due customers without sending; otherwise the reply is the count sent, the missing-webhook error or the delivery error |
| NotifyMessage.TestEntries | next-app/src/app/api/notifications/check/route.ts:241-264 | the report has one entry per due customer, in list order |
| CustomerStore.ColumnIndex | next-app/src/app/api/customers/route.ts:11-25 | every column stands at exactly one position of `COLUMN_KEYS` |
| CustomerStore.NormalizeRecord | next-app/src/app/api/customers/route.ts:87-98 | the copy-and-overwrite loop computes the normalised record |
| CustomerStore.NormalizedShape | next-app/src/app/api/customers/route.ts:87-98 | every key is present; tags become real booleans by truthiness; a text key holds a string exactly when it held a string, null or nothing; string values are unchanged |
| CustomerStore.NormalizeFixesRecords | next-app/src/app/api/customers/route.ts:87-98 | a well-typed record is unchanged, and normalising twice is normalising once |
| CustomerStore.FormatCell | next-app/src/app/api/customers/route.ts:107-121 | nothing, null, '' and all-white text give '-'; `true` gives '✓' and `false` '-'; a truthy number or object throws |
| CustomerStore.FormatTextProperties | next-app/src/app/api/customers/route.ts:114-120 | a text cell is never empty, holds no line feed and is trimmed; blank text is '-'; text without a vertical bar or a line feed is only trimmed |
| CustomerStore.RowCellsAreFormatCell | next-app/src/app/api/customers/route.ts:100-105 | each row has 13 cells in `COLUMN_KEYS` order, each the `formatCell` of that key |
| CustomerStore.TableLines | next-app/src/app/api/customers/route.ts:100-105 | the table's lines are the header, the separator and one row per record |
| CustomerStore.FindNextSectionIndex | next-app/src/app/api/customers/route.ts:151-157 | the first '\n## ' at or after the start, or the content length when there is none |
| CustomerStore.TableSpan | next-app/src/app/api/customers/route.ts:126-141 | no span exactly when neither header occurs; a span lies inside the original |
| CustomerStore.TableSpanStart | next-app/src/app/api/customers/route.ts:128-141 | the span starts at the current header when it occurs, otherwise at the legacy one, and ends at the next section |
| CustomerStore.MergeWithoutHeader | next-app/src/app/api/customers/route.ts:131-133 | with no header, the result is the table, a newline and the original with leading white space trimmed, then trailing white space trimmed and one '\n' |
| CustomerStore.MergeWithHeader | next-app/src/app/api/customers/route.ts:135-148 | with a header and a table not ending in a carriage return, the result is the text before the span without its trailing white space, then the table, then the text from the next section without its leading white space, joined by '\n' (a single '\n' ends the file when nothing follows), and every CRLF of each of the three pieces becomes LF |
| CustomerStore.MergeWithHeaderLf | next-app/src/app/api/customers/route.ts:135-148 | for a document and a table without carriage returns, only the span between the header and the next section is replaced and the surrounding text keeps its characters |
| MarkdownStore.StripBom | next-app/src/lib/markdown.ts:12-14 | a leading U+FEFF is removed and nothing else changes |
| MarkdownStore.StripBomOnce | next-app/src/lib/markdown.ts:12-14 | only one mark is removed; text without one is unchanged |
| MarkdownStore.ParseCustomerMarkdown | next-app/src/lib/markdown.ts:28-101 | the line loop with its `inTable` flag, `continue`, `break` and `push` computes the parsed records |
| MarkdownStore.ParseLines | next-app/src/lib/markdown.ts:33-100 | there are never more records than lines, and every record's texts are non-empty, trimmed and free of vertical bars |
| MarkdownStore.CustomerRecordsOf | next-app/src/lib/markdown.ts:28-101 | every parsed record is clean and its texts hold no line feed |
| MarkdownStore.ParseStep | next-app/src/lib/markdown.ts:35-75 | one line: before the table only a header line opens it, yielding no record; inside, blank lines and lines starting with a bar and three hyphens are skipped, a line not starting with a vertical bar ends parsing, and a row with 13 or more cells yields a record |
| MarkdownStore.NoHeaderNoRecords | next-app/src/lib/markdown.ts:37-42 | without a header line there are no records |
| MarkdownStore.TableEndsAtText | next-app/src/lib/markdown.ts:44-46 | the first non-blank line not starting with a vertical bar ends parsing; nothing after it is read |
| MarkdownStore.SkippedInTable | next-app/src/lib/markdown.ts:44-50 | blank lines and separator lines (a vertical bar and three hyphens) inside the table yield nothing |
| MarkdownStore.RowInTable | next-app/src/lib/markdown.ts:52-96 | a row with at least 13 non-empty cells yields the record of its first 13 cells; a shorter one is skipped |
| MarkdownStore.RecordOfCellsTexts | next-app/src/lib/markdown.ts:57-75 | every text field of a parsed record is one of the first 13 cells |
| MarkdownStore.TemplateBlock | next-app/src/lib/markdown.ts:104-107 | no block exactly when there is no opening json fence (three backquotes and `json`) or no closing fence after it; otherwise the text between the first opening json fence and the next fence |
| MarkdownStore.TemplateBlockOf | next-app/src/lib/markdown.ts:104-107 | in `pre`, an opening json fence, `body`, a closing fence and `post`, with no backquote in `pre` and `body`, the block is `body` |
| MarkdownStore.ParseTemplateMarkdown | next-app/src/lib/markdown.ts:103-120 | no block gives []; otherwise the JSON parser's templates, or [] when it fails |
| MarkdownStore.NoJsonBlockNoTemplates | next-app/src/lib/markdown.ts:104-107 | a text without an opening json fence gives no templates |
| TableRoundTrip.RowReadsBack | next-app/src/lib/markdown.ts:52-96 | the row written for a storable record reads back as that record, with empty texts as '-' |
| TableRoundTrip.TableReadsBack | next-app/src/app/api/customers/route.ts:100-121 | the table written for storable records parses back as those records, in order, with empty texts as '-' |
| TableRoundTrip.ReloadIsStable | next-app/src/lib/markdown.ts:28-101 | loading a document, saving its records and loading again gives the records of the first load |
| TableRoundTrip.CanonicalOfFilled | next-app/src/lib/markdown.ts:57-75 | a record with no empty text is its own canonical form |
| TableRoundTrip.EscapedPipeSplitsCell | next-app/src/app/api/customers/route.ts:119 | a vertical bar in a text is written after a backslash, but the reader splits there anyway: the cell reads back as two cells, the first ending in the backslash |
| Amounts.ParseAmount | next-app/src/components/CustomerManager.tsx:1215-1231 | the method's updates of `let amount` compute the amount |
| Amounts.FractionBelowPower | next-app/src/components/CustomerManager.tsx:1220 | the `n` digits after the point are worth less than `10^n` |
| Amounts.TokenValueBounds | next-app/src/components/CustomerManager.tsx:1220 | `parseFloat` of a match is its whole part plus a fraction below one |
| Amounts.Tokens | next-app/src/components/CustomerManager.tsx:1217 | every match of `\d+(?:\.\d+)?` is a well-formed number |
| Amounts.Round | next-app/src/components/CustomerManager.tsx:1230 | `Math.round` is the integer within half of the value, halves rounding up |
| Amounts.AmountWithoutDigits | next-app/src/components/CustomerManager.tsx:1216-1218 | empty text and text without a digit are 0 |
| Amounts.AmountOfNumber | next-app/src/components/CustomerManager.tsx:1220-1230 | a whole number is that amount |
| Amounts.AmountOfMan | next-app/src/components/CustomerManager.tsx:1227-1229 | a number followed by 万 is ten thousand times the number |
| Amounts.AmountOfRange | next-app/src/components/CustomerManager.tsx:1222-1226 | two numbers give the mean of the first two rounded half up; a zero second number counts as the first |
| Amounts.AmountOfDecimal | next-app/src/components/CustomerManager.tsx:1217-1230 | a decimal is read with its fraction and rounded |
| Amounts.AmountOfTokens | next-app/src/components/CustomerManager.tsx:1215-1231 | the amount is the rounded mean of the tokens found, times 10000 exactly when 万 occurs |
| Templates.ActionKeyword | next-app/src/components/CustomerManager.tsx:1251-1253 | the first badge keyword the action contains, or the action itself when it contains none |
| Templates.FirstKeyword | next-app/src/components/CustomerManager.tsx:1251-1253 | a keyword found is in the list and in the action; none is found exactly when the action contains no keyword |
| Templates.Candidates | next-app/src/components/CustomerManager.tsx:1267-1269 | a template is a candidate exactly when one of its actions occurs in the action keyword |
| Templates.OfVariant | next-app/src/components/CustomerManager.tsx:1279 | the candidates of the requested variant, exactly |
| Templates.FirstConditionMatch | next-app/src/components/CustomerManager.tsx:1281-1290 | the first template whose `condition.existing` equals the customer's status, or none exactly when no template has it |
| Templates.FirstUnconditioned | next-app/src/components/CustomerManager.tsx:1292 | the first template without a condition, or none exactly when every template has one |
| Templates.PickFrom | next-app/src/components/CustomerManager.tsx:1281-1294 | the loop with `continue` and early return, then the fallbacks, computes the choice within one pool |
| Templates.PickChoice | next-app/src/components/CustomerManager.tsx:1281-1294 | the choice is empty exactly for an empty pool and is from the pool; a condition match wins; otherwise an unconditioned template wins |
| Templates.SelectTemplate | next-app/src/components/CustomerManager.tsx:1261-1310 | the loops and early returns compute the selected template |
| Templates.SelectedTemplateProperties | next-app/src/components/CustomerManager.tsx:1261-1310 | null exactly when no template applies; the result applies; a requested variant is honoured when an applicable template has it; a matching condition is preferred |
| Templates.SelectTemplates | next-app/src/components/CustomerManager.tsx:1312-1320 | the formal and the casual selection |
| Templates.ParseContact | next-app/src/components/CustomerManager.tsx:1233-1249 | '' gives no contact; a caption other than 開く needs a '[' in the value |
| Templates.ParseMarkdownLink | next-app/src/components/CustomerManager.tsx:1235-1241 | `[text](address)` after text without '[' gives that caption and address, whatever follows |
| Templates.ParsePlainContact | next-app/src/components/CustomerManager.tsx:1242-1248 | without '[', a value starting with `http` opens as 開く; any other value is no contact |
| Templates.InferMemo | next-app/src/components/CustomerManager.tsx:1859-1870 | notes other than '' and '-' are the memo; otherwise 現在進行中の案件 exactly when the action contains フォローアップ, else これまでのやり取り exactly when it contains 新規提案, else これまでの案件; the memo is never '' or '-' |
| Templates.ReplacePlaceholdersAppend | next-app/src/components/CustomerManager.tsx:1872-1877 | the `reduce` over the table is replacing with its first part and then with the rest |
| Templates.ReplacePlaceholdersAbsent | next-app/src/components/CustomerManager.tsx:1872-1877 | text containing none of the keys is unchanged |
| Templates.ReplaceOnePlaceholder | next-app/src/components/CustomerManager.tsx:1872-1877 | one occurrence of a key is replaced by its value |
| Templates.ElapsedDays | next-app/src/components/CustomerManager.tsx:1744 | there are elapsed days exactly when the last contact date parses |
| Templates.GreetingPrefixCases | next-app/src/components/CustomerManager.tsx:1750-1777 | two or more transactions and fewer than 120 days give いつも…; no date lets the count decide; otherwise the first bucket whose bound the days do not pass |
| Templates.FrequentGreeting | next-app/src/components/CustomerManager.tsx:1750-1752 | a regular customer seen within 120 days is greeted with いつも…, with お世話になっております exactly from day 30 |
| Templates.BuildGreetingPhrase | next-app/src/components/CustomerManager.tsx:1736-1780 | the phrase is the greeting prefix followed by `、{company}の{person}です。` |
| ListView.KeepRecordIff | next-app/src/components/CustomerManager.tsx:310-369 | a record is kept exactly when the action, tag, gender, age, minimum-count and search filters all pass |
| ListView.AnyFieldContainsIff | next-app/src/components/CustomerManager.tsx:356-368 | the search matches exactly when some text field contains the lower-cased term; tags never match |
| ListView.FilterRecords | next-app/src/components/CustomerManager.tsx:310-369 | filtering never adds records |
| ListView.FilterRecordsMembers | next-app/src/components/CustomerManager.tsx:310-369 | a record is shown exactly when it is in the list and passes the filters |
| ListView.FilterRecordsIdempotent | next-app/src/components/CustomerManager.tsx:310-369 | filtering twice is filtering once |
| ListView.NoFiltersKeepAll | next-app/src/components/CustomerManager.tsx:310-369 | with every filter empty, every record is shown |
| ListView.ColumnValueCases | next-app/src/components/CustomerManager.tsx:1177-1199 | the tag columns give '1' for a set favourite or trouble tag and '0' otherwise; the count column its leading integer, 0 when there is none; the amount column `parseAmount` of the total; the date columns the parsed time of their field, or the 1900 sentinel when it is empty or does not parse; text columns their text; unknown columns '' |
| ListView.ColumnValueOfOwnField | next-app/src/components/CustomerManager.tsx:1177-1199 | a column's value depends only on the tag or field that column shows |
| ListView.ColumnValueSameKind | next-app/src/components/CustomerManager.tsx:1177-1199 | every record gives a column the same kind of value, so the sort never compares a number with a string |
| ListView.TextBeforeTotal | next-app/src/components/CustomerManager.tsx:384-385 | string `<` is a strict total order: irreflexive, asymmetric, and of two different strings one comes first |
| ListView.CompareRecords | next-app/src/components/CustomerManager.tsx:379-387 | the comparator returns -1, 0 or 1 |
| ListView.CompareRecordsConsistent | next-app/src/components/CustomerManager.tsx:379-387 | swapping the records negates the comparator; it is 0 exactly when the column values are equal; the descending order is the ascending one negated |
| ListView.NextSort | next-app/src/components/CustomerManager.tsx:526-536 | the chosen column becomes the sort column; choosing the current one flips the direction, a new one sorts ascending |
| ListView.NextSortTwice | next-app/src/components/CustomerManager.tsx:526-536 | choosing the current column twice restores the sort state; a new column twice ends descending |
| ListView.ComputeStats | next-app/src/components/CustomerManager.tsx:392-416 | the totals and urgent count over the shown records, and this month's new customers and contacts over the whole list |
| ListView.TallyShown | next-app/src/components/CustomerManager.tsx:394-396 | the `reduce` and `forEach` over the shown records compute the amount total and the urgent count |
| ListView.TallyThisMonth | next-app/src/components/CustomerManager.tsx:402-416 | the two `filter` counts over the whole list compute this month's new customers and contacts |
| ListView.UrgentIsExactLabel | next-app/src/components/CustomerManager.tsx:486-494 | a record is urgent exactly when its action is リコンタクト or フォローアップ |
| ListView.TotalsIgnoreOrder | next-app/src/components/CustomerManager.tsx:394-396 | the amount total and the urgent count do not depend on the sort order |
| ListView.NewAreContacts | next-app/src/components/CustomerManager.tsx:402-416 | this month's new customers are no more than this month's contacts, which are no more than the records |
| Editing.EditRecordFields | next-app/src/components/CustomerManager.tsx:245-252 | the edited field takes the value; the scheduled date is recomputed exactly when the action or the last contact date was edited; nothing else changes |
| Editing.EditedListOthers | next-app/src/components/CustomerManager.tsx:243-255 | only the record at `recordIndex` changes; an index outside the list changes nothing |
| Editing.ToggleTwice | next-app/src/components/CustomerManager.tsx:275-276 | toggling a tag twice restores the record |
| Editing.ToggledListEffect | next-app/src/components/CustomerManager.tsx:268-280 | the tag is negated on every record matched by index or by name; other tags, all texts and the unmatched records are unchanged |
| Editing.ToggledListTwice | next-app/src/components/CustomerManager.tsx:268-280 | toggling twice restores the list |
| Editing.IndexOfRecord | next-app/src/components/CustomerManager.tsx:1602 | the first position holding the record, or -1 when there is none |
| Editing.IndexOfKey | next-app/src/components/CustomerManager.tsx:1607-1612 | the first position whose name, last contact date, next action and contact address match, or -1 when there is none |
| Editing.FindRecordIndexCases | next-app/src/components/CustomerManager.tsx:1601-1614 | a record in the list is found at its first position; otherwise the first key match; otherwise 0 |
| Editing.CustomerManager.constructor | next-app/src/components/CustomerManager.tsx:167-191 | the initial state: the loaded rows, nothing to save, no status, sorted by last contact date ascending |
| Editing.CustomerManager.CellChange | next-app/src/components/CustomerManager.tsx:233-261 | a scheduled-date edit changes nothing; any other edit replaces the list by the edited list, marks it unsaved and clears a shown status |
| Editing.CustomerManager.MarkToggle | next-app/src/components/CustomerManager.tsx:263-286 | the list becomes the toggled list, is marked unsaved, and a shown status is cleared |
| Editing.CustomerManager.Sort | next-app/src/components/CustomerManager.tsx:526-536 | the sort state becomes the next one; the list and status are untouched |

## Left out

- JSX rendering, CSS-class helpers, badge maps, `SortIndicator`, `StatCard`, `StatsBar` and the column-width helpers: these are presentation only.
- The auto-save and status-message timers (`useEffect` with `setTimeout`): they are asynchronous React effects, not sequential logic.
- File-system work: reading the data files, the backup copy, the write, and the timestamp from `toISOString`. This is I/O. `readUtf8File` is modelled only as its byte-order-mark strip.
- `persistCustomerRecords`, the clipboard, `window.open`, `window.prompt` and `process.env`: these are foreign calls. The webhook address is a parameter.
- The Discord `fetch` call: its reply is a parameter `WebhookReply`. Network errors other than a non-OK reply are not modelled.
- The request and response plumbing of the `GET` and `POST` handlers: `request.nextUrl` becomes the `testMode` parameter. The customer save endpoint's `POST` is left out, apart from the pure string functions it calls.
- `JSON.parse` in `parseTemplateMarkdown`: it is a foreign parser, passed as a function parameter. A thrown parse error is the parameter's `None`.
- `recordValueToDate`: it relies on the platform's `new Date(string)`. It becomes a function parameter `parse`, with the 1900 sentinel kept.
- `sortedRecords`, the dashboard's column sort: the call to the library's `Array.prototype.sort` is left out. The column values, the comparator and the sort-direction choice are modelled.
- ListView.TextBefore: JavaScript compares strings by UTF-16 code units, the model by characters (code points). The two orders differ only between a character above U+FFFF and one in U+E000..U+FFFF.
- The daily, monthly and yearly statistics loops and the `actionCounts` map: they lean on month-overflow `Date` construction and feed only display and debug logging. The urgent count they share a loop with is modelled.
- `generateMessage`, `formatPersonName` and `buildSignature`: message assembly around the modelled greeting, memo and placeholder functions. `buildSignature` always returns ''.
- `next-app/src/app/page.tsx`: an asynchronous loader wrapper with no logic.
- Time zones and daylight-saving time: a day is a calendar day in one fixed local time, and `now` is a day number with a past-midnight flag.
- `parseFloat` is read as an exact Dafny `real`, not a binary floating-point number, and `Math.round` as exact half-up rounding.
- `toLowerCase` is modelled on ASCII letters only; other characters are kept.
- `console.error` and `console.log` are left out.
- Templates.ReplacePlaceholders: `$&`-style patterns in a replacement value are taken literally, whereas `String.prototype.replace` would expand them; a `null` value (`value ?? ''`) is not modelled, as the values are always strings. Keys must be non-empty: an empty pattern would match between every two characters, and the code only passes fixed placeholder names.
- Editing.FindRecordIndex: `indexOf` on the list compares object identity. The model compares record values, so two equal records at different positions are not told apart.
- NotifySelect.SortByPriority: `Array.prototype.sort` sorts `customers` in place. The model gives its result, a stable bucket order by rank, as a new sequence on `seq`.
- NotifySelect.PriorityRank: a label that names a key inherited from `Object.prototype` (`constructor`, `toString`, `valueOf`, `hasOwnProperty`, `__proto__` and the like) is ranked 999 here. In the code, `priorityOrder[label]` gives a truthy non-number for it, so `|| 999` does not apply, the comparator returns NaN, `sort` reads that as 0, and the order is left to the engine. The rank order of `NotifySelect.SortByPriorityCorrect` holds for the code only when no label is such a key.
- CustomerStore.MergeWithHeader: a table whose last character is a carriage return is not covered. That '\r' and the '\n' that follows it form a CRLF across the join, so the three pieces are no longer rewritten independently.
- CustomerStore.NormalizeRecord: text fields holding numbers or objects are kept as they are, not turned into ''. The code only replaces `null` and `undefined` there, and the model follows the code. `FormatCell` then fails on a truthy number or object, as `value.trim` would throw.
- Calendar.ValidDay: the range of `Date` is ±8.64e15 milliseconds in UTC. The model applies it to local day numbers at midnight. At the very edge of the range, the time zone and the time of day kept by a forward-moved date can put a day on the other side of the limit.
- Strings are sequences of code points, while `.length` and `padStart` count UTF-16 code units. For text holding characters above U+FFFF, ContactDates.FormatDateForInput's four-character year test and Text.PadStart2's padding count differently from the code. For example, the year part of "😀😀/1/1" has length 4 in JavaScript, so the code gives "😀😀-01-01", while the model counts 2 and gives ''.
- `parseInt` gives an unbounded integer here. JavaScript's number turns a very long digit run into a rounded float, or into `Infinity` beyond about 309 digits. Templates.IsExistingCustomer therefore leaves out the `Number.isFinite` test of next-app/src/components/CustomerManager.tsx:1258, which only fails on `Infinity`.
