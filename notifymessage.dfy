/**
 * The webhook message of the notification check, its delivery, and the check endpoint's reply.
 */
module NotifyMessage {
  import opened Wrappers
  import opened Text
  import opened Calendar
  import opened Types
  import opened FollowUp
  import opened RouteDates
  import opened NotifySelect

  const Title := "📢 **営業アクション通知**\n\n"
  const NoneToday := "今日対応すべき顧客はありません。"
  const CalculatedMark := " (計算値)"
  const BotName := "営業通知Bot"
  const MissingWebhookError := "DISCORD_WEBHOOK_URL環境変数が設定されていません"

  /** The title and the count line for `n` customers. */
  function Heading(n: nat): string {
    Title + (if n == 0 then NoneToday else "今日対応すべき顧客: **" + NatToString(n) + "件**\n\n")
  }

  /**
   * The scheduled date an entry shows: the stored one when present (as typed), otherwise
   * the computed one as `YYYY/MM/DD` (`NaN/NaN/NaN` for an Invalid Date), otherwise none.
   */
  function DisplayScheduledDate(customer: CustomerRecord, now: Now): Option<string> {
    if IsPresent(customer.scheduledDate) then Some(customer.scheduledDate)
    else match ComputedDay(customer, now)
      case Some(d) => Some(DateText(d))
      case None => None
  }

  /** The 実行予定日 line, marked as computed when no stored date was shown. */
  function ScheduleLine(customer: CustomerRecord, now: Now): string {
    match DisplayScheduledDate(customer, now)
    case None => ""
    case Some(d) =>
      "   - 実行予定日: " + d + (if !IsPresent(customer.scheduledDate) then CalculatedMark else "") + "\n"
  }

  /** The 最終連絡日, 連絡先 and 総額 lines, each shown only for a present value. */
  function LastContactLine(value: string): string {
    if IsPresent(value) then "   - 最終連絡日: " + value + "\n" else ""
  }

  function ContactLine(value: string): string {
    if IsPresent(value) then "   - 連絡先: " + value + "\n" else ""
  }

  function AmountLine(value: string): string {
    if IsPresent(value) then "   - 総額: " + value + "\n" else ""
  }

  /** The block for the `k`-th customer of the list (counting from 1). */
  function Entry(customer: CustomerRecord, k: nat, now: Now): string {
    "**" + NatToString(k) + ". " + customer.customerName + "**\n"
    + ("   - アクション: " + customer.nextAction + "\n")
    + ScheduleLine(customer, now)
    + LastContactLine(customer.lastContactDate)
    + ContactLine(customer.contactUrl)
    + AmountLine(customer.totalAmount)
    + "\n"
  }

  /** The numbered blocks of a list of customers. */
  function EntryBlocks(customers: seq<CustomerRecord>, now: Now): (blocks: seq<string>)
    ensures |blocks| == |customers|
  {
    seq(|customers|, i requires 0 <= i < |customers| => Entry(customers[i], i + 1, now))
  }

  /** The whole message for a list of customers. */
  function NotificationMessage(customers: seq<CustomerRecord>, now: Now): string {
    Heading(|customers|) + Concat(EntryBlocks(customers, now))
  }

  /** The message text as the check builds it, entry by entry. */
  method BuildMessage(customers: seq<CustomerRecord>, now: Now) returns (message: string)
    ensures message == NotificationMessage(customers, now)
  {
    message := Title;
    if |customers| == 0 {
      message := message + NoneToday;
      return;
    }
    var countLine := "今日対応すべき顧客: **" + NatToString(|customers|) + "件**\n\n";
    message := message + countLine;
    for index := 0 to |customers|
      invariant message == Heading(|customers|) + Concat(EntryBlocks(customers, now)[..index])
    {
      var entry := BuildEntry(customers[index], index + 1, now);
      ghost var blocks := EntryBlocks(customers, now);
      assert blocks[..index + 1][..index] == blocks[..index] && blocks[index] == entry;
      AppendAssoc(Heading(|customers|), Concat(blocks[..index]), entry);
      message := message + entry;
    }
    assert EntryBlocks(customers, now)[..|customers|] == EntryBlocks(customers, now);
  }

  /** One customer's block, line by line. */
  method BuildEntry(customer: CustomerRecord, k: nat, now: Now) returns (entry: string)
    ensures entry == Entry(customer, k, now)
  {
    entry := "**" + NatToString(k) + ". " + customer.customerName + "**\n";
    var actionLine := "   - アクション: " + customer.nextAction + "\n";
    entry := entry + actionLine;
    var line := BuildScheduleLine(customer, now);
    entry := entry + line;
    line := "";
    if customer.lastContactDate != "" && customer.lastContactDate != "-" {
      line := "   - 最終連絡日: " + customer.lastContactDate + "\n";
    }
    entry := entry + line;
    line := "";
    if customer.contactUrl != "" && customer.contactUrl != "-" {
      line := "   - 連絡先: " + customer.contactUrl + "\n";
    }
    entry := entry + line;
    line := "";
    if customer.totalAmount != "" && customer.totalAmount != "-" {
      line := "   - 総額: " + customer.totalAmount + "\n";
    }
    entry := entry + line;
    entry := entry + "\n";
  }

  /** The 実行予定日 line: the stored date, else the computed one with its mark, else nothing. */
  method BuildScheduleLine(customer: CustomerRecord, now: Now) returns (line: string)
    ensures line == ScheduleLine(customer, now)
  {
    var displayScheduledDate: Option<string> := None;
    if customer.scheduledDate != "" && customer.scheduledDate != "-" {
      displayScheduledDate := Some(customer.scheduledDate);
    } else {
      var calculatedDate := CalculateScheduledDate(customer, now);
      if calculatedDate.Some? {
        displayScheduledDate := Some(DateText(calculatedDate.value));
      }
    }
    line := "";
    if displayScheduledDate.Some? {
      line := "   - 実行予定日: " + displayScheduledDate.value;
      if customer.scheduledDate == "" || customer.scheduledDate == "-" {
        line := line + CalculatedMark;
      }
      line := line + "\n";
    }
  }

  /** Every customer of the list has its numbered block in the message, after the blocks before it. */
  lemma MessageHasEntry(customers: seq<CustomerRecord>, i: nat, now: Now)
    requires i < |customers|
    ensures EntryBlocks(customers, now)[i] == Entry(customers[i], i + 1, now)
    ensures OccursAt(NotificationMessage(customers, now), EntryBlocks(customers, now)[i],
      |Heading(|customers|)| + |Concat(EntryBlocks(customers, now)[..i])|)
  {
    BlockAfterHeading(NotificationMessage(customers, now), Heading(|customers|), EntryBlocks(customers, now), i);
  }

  lemma BlockAfterHeading(message: string, h: string, blocks: seq<string>, i: nat)
    requires message == h + Concat(blocks)
    requires i < |blocks|
    ensures OccursAt(message, blocks[i], |h| + |Concat(blocks[..i])|)
  {
    ConcatOccurs(blocks, i);
    OccursAfter(h, Concat(blocks), blocks[i], |Concat(blocks[..i])|);
  }

  lemma OccursAfter(h: string, s: string, p: string, i: int)
    requires OccursAt(s, p, i)
    ensures OccursAt(h + s, p, |h| + i)
  {
    assert (h + s)[|h| + i..|h| + i + |p|] == s[i..i + |p|];
  }

  /**
   * The scheduled line appears when a date is stored or one can be computed; it carries the
   * computed mark exactly when no date is stored, and a computed date reads back as the
   * computed day.
   */
  lemma ScheduleLineCases(customer: CustomerRecord, now: Now)
    ensures DisplayScheduledDate(customer, now).Some? <==>
      IsPresent(customer.scheduledDate) || ComputedDay(customer, now).Some?
    ensures IsPresent(customer.scheduledDate) ==>
      ScheduleLine(customer, now) == "   - 実行予定日: " + customer.scheduledDate + "\n"
    ensures !IsPresent(customer.scheduledDate) && ComputedDay(customer, now).Some? ==>
      ScheduleLine(customer, now) ==
        "   - 実行予定日: " + DateText(ComputedDay(customer, now).value) + CalculatedMark + "\n"
    ensures DisplayScheduledDate(customer, now).None? ==> ScheduleLine(customer, now) == ""
  {
  }

  /**
   * For a reported customer without a stored date, the shown date is the due day itself:
   * it reads back through `parseDate` to the day that put the customer in the list.
   */
  lemma ShownDateIsDueDay(customer: CustomerRecord, now: Now)
    requires ShouldNotify(customer, now) && !IsPresent(customer.scheduledDate)
    requires 1000 <= CivilFromDays(DueDay(customer, now).value).year <= 9999
    ensures DisplayScheduledDate(customer, now).Some?
    ensures ParseDate(DisplayScheduledDate(customer, now).value, now) == DueDay(customer, now)
  {
    DateTextMarksInvalid(DueDay(customer, now).value);
    ParseFormattedDate(DueDay(customer, now).value, now);
  }

  /**
   * A stored date that does not parse is still shown as typed and without the computed mark,
   * though the customer was selected by the computed day.
   */
  lemma UnparsedStoredDateShownAsTyped(customer: CustomerRecord, now: Now)
    requires IsPresent(customer.scheduledDate) && ParseDate(customer.scheduledDate, now).None?
    ensures DueDay(customer, now) == ComputedDay(customer, now)
    ensures DisplayScheduledDate(customer, now) == Some(customer.scheduledDate)
  {
  }

  /** The webhook's HTTP reply. */
  datatype WebhookReply = WebhookReply(ok: bool, statusText: string, body: string)

  /** The JSON body posted to the webhook. */
  datatype WebhookPost = WebhookPost(url: string, content: string, username: string)

  datatype SendOutcome =
    | MissingWebhook
    | NothingToSend
    | Delivered(post: WebhookPost)
    | DeliveryFailed(post: WebhookPost, error: string)

  function DeliveryError(reply: WebhookReply): string {
    "Discord通知送信に失敗: " + reply.statusText + " - " + reply.body
  }

  /**
   * `sendDiscordNotification`: no webhook address refuses; an empty list sends nothing;
   * otherwise the priority-sorted list is posted, and a non-OK reply is a failure.
   */
  method SendDiscordNotification(webhookUrl: string, customers: seq<CustomerRecord>, now: Now, reply: WebhookReply)
    returns (outcome: SendOutcome, sorted: seq<CustomerRecord>)
    ensures webhookUrl == "" ==> outcome == MissingWebhook
    ensures webhookUrl != "" && customers == [] ==> outcome == NothingToSend
    ensures webhookUrl != "" && customers != [] ==>
      && sorted == SortByPriority(customers)
      && (outcome.Delivered? || outcome.DeliveryFailed?)
      && outcome.post == WebhookPost(webhookUrl, NotificationMessage(sorted, now), BotName)
      && (outcome.DeliveryFailed? <==> !reply.ok)
      && (outcome.DeliveryFailed? ==> outcome.error == DeliveryError(reply))
    ensures multiset(sorted) == multiset(customers)
  {
    sorted := customers;
    if webhookUrl == "" {
      return MissingWebhook, sorted;
    }
    if |customers| == 0 {
      return NothingToSend, sorted;
    }
    sorted := SortByPriority(customers);
    SortByPriorityCorrect(customers);
    var message := BuildMessage(sorted, now);
    var post := WebhookPost(webhookUrl, message, BotName);
    if !reply.ok {
      return DeliveryFailed(post, DeliveryError(reply)), sorted;
    }
    outcome := Delivered(post);
  }

  /** One customer of the test-mode report. */
  datatype TestEntry = TestEntry(
    customerName: string,
    nextAction: string,
    scheduledDate: string,
    calculatedScheduledDate: Option<string>,
    lastContactDate: string,
    contactUrl: string)

  function TestEntryOf(customer: CustomerRecord, now: Now): TestEntry {
    TestEntry(customer.customerName, customer.nextAction, customer.scheduledDate,
      DisplayScheduledDate(customer, now), customer.lastContactDate, customer.contactUrl)
  }

  /** The endpoint's JSON reply: `ok`, `message`, and the count or report. */
  datatype CheckReply =
    | TestReport(customersCount: nat, customers: seq<TestEntry>)
    | Sent(customersCount: nat, message: string)
    | CheckFailed(message: string)

  /**
   * The check endpoint: select the due customers; in test mode report them unsorted without
   * sending; otherwise send and report how many were sent, or the delivery error.
   */
  method CheckNotifications(records: seq<CustomerRecord>, testMode: bool, webhookUrl: string, reply: WebhookReply, now: Now)
    returns (response: CheckReply)
    ensures testMode ==>
      var due := NotifyList(records, now);
      response == TestReport(|due|, seq(|due|, i requires 0 <= i < |due| => TestEntryOf(due[i], now)))
    ensures !testMode && webhookUrl == "" ==> response == CheckFailed(MissingWebhookError)
    ensures !testMode && webhookUrl != "" ==>
      var due := NotifyList(records, now);
      response == if due != [] && !reply.ok then CheckFailed(DeliveryError(reply))
        else Sent(|due|, NatToString(|due|) + "件の通知を送信しました")
  {
    var customersToNotify := GetCustomersToNotify(records, now);
    if testMode {
      var entries := TestEntries(customersToNotify, now);
      return TestReport(|customersToNotify|, entries);
    }
    var outcome, sorted := SendDiscordNotification(webhookUrl, customersToNotify, now, reply);
    match outcome
    case MissingWebhook => response := CheckFailed(MissingWebhookError);
    case DeliveryFailed(_, error) => response := CheckFailed(error);
    case _ =>
      response := Sent(|customersToNotify|, NatToString(|customersToNotify|) + "件の通知を送信しました");
  }

  /** The test-mode report entries, in list order. */
  method TestEntries(customers: seq<CustomerRecord>, now: Now) returns (entries: seq<TestEntry>)
    ensures entries == seq(|customers|, i requires 0 <= i < |customers| => TestEntryOf(customers[i], now))
  {
    entries := [];
    for i := 0 to |customers|
      invariant entries == seq(i, j requires 0 <= j < i => TestEntryOf(customers[j], now))
    {
      entries := entries + [TestEntryOf(customers[i], now)];
    }
  }
}
