/**
 * Outreach messages on the dashboard: choosing a template for a customer, reading the contact
 * cell, the relationship memo, the greeting by elapsed days, and placeholder substitution.
 */
module Templates {
  import opened Wrappers
  import opened Text
  import opened Calendar
  import opened Types
  import opened FollowUp
  import opened ContactDates
  import opened Amounts

  /** The keys of `ACTION_BADGE_CLASS`, in their declared order. */
  const BadgeKeywords: seq<string> := [NewProposal, Recontact, FollowUpAction, Remind, Closing, InTrade, RepeatProposal, Done]

  /** The first keyword of `keywords` the action contains, if any. */
  function FirstKeyword(action: string, keywords: seq<string>): (r: Option<string>)
    ensures r.Some? ==> r.value in keywords && Contains(action, r.value)
    ensures r.None? <==> forall k :: k in keywords ==> !Contains(action, k)
  {
    if keywords == [] then None
    else if Contains(action, keywords[0]) then Some(keywords[0])
    else FirstKeyword(action, keywords[1..])
  }

  /** `getActionKeyword`: the first badge keyword the action contains, else the action itself. */
  function ActionKeyword(action: string): (r: string)
    ensures (exists k :: k in BadgeKeywords && Contains(action, k)) ==> r in BadgeKeywords && Contains(action, r)
    ensures (forall k :: k in BadgeKeywords ==> !Contains(action, k)) ==> r == action
  {
    FirstKeyword(action, BadgeKeywords).GetOr(action)
  }

  /** `isExistingCustomer`: a positive transaction count, or a positive total amount. */
  predicate IsExistingCustomer(record: CustomerRecord) {
    var count := ParseInt(record.transactionCount);
    (count.Some? && count.value > 0) || AmountOf(record.totalAmount) > 0
  }

  /** A template applies when one of its actions occurs in the action keyword. */
  predicate Applies(template: TemplateDefinition, action: string) {
    exists c :: c in template.actions && Contains(action, c)
  }

  function Candidates(templates: seq<TemplateDefinition>, action: string): (r: seq<TemplateDefinition>)
    ensures forall t :: t in r <==> t in templates && Applies(t, action)
  {
    if templates == [] then []
    else (if Applies(templates[0], action) then [templates[0]] else []) + Candidates(templates[1..], action)
  }

  function OfVariant(templates: seq<TemplateDefinition>, variant: Variant): (r: seq<TemplateDefinition>)
    ensures forall t :: t in r <==> t in templates && t.variant == Some(variant)
  {
    if templates == [] then []
    else (if templates[0].variant == Some(variant) then [templates[0]] else []) + OfVariant(templates[1..], variant)
  }

  /** The template's condition has the key `existing`, with the customer's value. */
  predicate ConditionMatches(template: TemplateDefinition, existing: bool) {
    template.condition.Some? && template.condition.value.existing == Some(existing)
  }

  function FirstConditionMatch(templates: seq<TemplateDefinition>, existing: bool): (r: Option<TemplateDefinition>)
    ensures r.Some? ==> r.value in templates && ConditionMatches(r.value, existing)
    ensures r.None? <==> forall t :: t in templates ==> !ConditionMatches(t, existing)
  {
    if templates == [] then None
    else if ConditionMatches(templates[0], existing) then Some(templates[0])
    else FirstConditionMatch(templates[1..], existing)
  }

  /** `templates.find((candidate) => !candidate.condition)` */
  function FirstUnconditioned(templates: seq<TemplateDefinition>): (r: Option<TemplateDefinition>)
    ensures r.Some? ==> r.value in templates && r.value.condition.None?
    ensures r.None? <==> forall t :: t in templates ==> t.condition.Some?
  {
    if templates == [] then None
    else if templates[0].condition.None? then Some(templates[0])
    else FirstUnconditioned(templates[1..])
  }

  /** The choice within one pool: a matching condition, else no condition, else the first. */
  function Pick(pool: seq<TemplateDefinition>, existing: bool): Option<TemplateDefinition> {
    match FirstConditionMatch(pool, existing)
    case Some(t) => Some(t)
    case None =>
      match FirstUnconditioned(pool)
      case Some(t) => Some(t)
      case None => if pool == [] then None else Some(pool[0])
  }

  /** The template `selectTemplate` returns. */
  function SelectedTemplate(record: CustomerRecord, templates: seq<TemplateDefinition>, variant: Option<Variant>): Option<TemplateDefinition> {
    var candidates := Candidates(templates, ActionKeyword(record.nextAction));
    var existing := IsExistingCustomer(record);
    if variant.Some? && OfVariant(candidates, variant.value) != [] then Pick(OfVariant(candidates, variant.value), existing)
    else Pick(candidates, existing)
  }

  /** `selectTemplate`, with its loops and early returns. */
  method SelectTemplate(record: CustomerRecord, templates: seq<TemplateDefinition>, variant: Option<Variant>)
    returns (r: Option<TemplateDefinition>)
    ensures r == SelectedTemplate(record, templates, variant)
  {
    var action := ActionKeyword(record.nextAction);
    var candidates := Candidates(templates, action);
    if candidates == [] {
      return None;
    }
    var existing := IsExistingCustomer(record);
    if variant.Some? {
      var variantCandidates := OfVariant(candidates, variant.value);
      r := PickFrom(variantCandidates, existing);
      if variantCandidates != [] {
        return;
      }
    }
    r := PickFrom(candidates, existing);
  }

  /** The loop over one pool with `continue` and early return, then the fallbacks. */
  method PickFrom(pool: seq<TemplateDefinition>, existing: bool) returns (r: Option<TemplateDefinition>)
    ensures r == Pick(pool, existing)
  {
    for i := 0 to |pool|
      invariant FirstConditionMatch(pool, existing) == FirstConditionMatch(pool[i..], existing)
    {
      var template := pool[i];
      assert pool[i..][0] == template && pool[i..][1..] == pool[i + 1..];
      if template.condition.None? {
        continue;
      }
      if template.condition.value.existing.Some? {
        if template.condition.value.existing.value == existing {
          return Some(template);
        }
      }
    }
    assert pool[|pool|..] == [];
    var noCondition := FirstUnconditioned(pool);
    if noCondition.Some? {
      return noCondition;
    }
    if pool != [] {
      return Some(pool[0]);
    }
    return None;
  }

  /** `selectTemplates`: the formal and the casual choice. */
  method SelectTemplates(record: CustomerRecord, templates: seq<TemplateDefinition>)
    returns (formal: Option<TemplateDefinition>, casual: Option<TemplateDefinition>)
    ensures formal == SelectedTemplate(record, templates, Some(Formal))
    ensures casual == SelectedTemplate(record, templates, Some(Casual))
  {
    formal := SelectTemplate(record, templates, Some(Formal));
    casual := SelectTemplate(record, templates, Some(Casual));
  }

  lemma PickChoice(pool: seq<TemplateDefinition>, existing: bool)
    ensures Pick(pool, existing).None? <==> pool == []
    ensures Pick(pool, existing).Some? ==> Pick(pool, existing).value in pool
    ensures (exists t :: t in pool && ConditionMatches(t, existing)) ==> ConditionMatches(Pick(pool, existing).value, existing)
    ensures (forall t :: t in pool ==> !ConditionMatches(t, existing)) && (exists t :: t in pool && t.condition.None?) ==>
      Pick(pool, existing).value.condition.None?
  {
  }

  /**
   * No template is chosen exactly when none applies to the action keyword; the chosen one
   * applies; a requested variant is honoured whenever an applicable template has it; and a
   * template whose `existing` condition fits the customer is preferred.
   */
  lemma SelectedTemplateProperties(record: CustomerRecord, templates: seq<TemplateDefinition>, variant: Option<Variant>)
    ensures var action := ActionKeyword(record.nextAction);
      SelectedTemplate(record, templates, variant).None? <==> forall t :: t in templates ==> !Applies(t, action)
    ensures var r := SelectedTemplate(record, templates, variant);
      r.Some? ==> r.value in templates && Applies(r.value, ActionKeyword(record.nextAction))
    ensures var action := ActionKeyword(record.nextAction);
      variant.Some? && (exists t :: t in templates && Applies(t, action) && t.variant == variant) ==>
        SelectedTemplate(record, templates, variant).Some? && SelectedTemplate(record, templates, variant).value.variant == variant
    ensures var action := ActionKeyword(record.nextAction);
      var pool := if variant.Some? && OfVariant(Candidates(templates, action), variant.value) != []
        then OfVariant(Candidates(templates, action), variant.value) else Candidates(templates, action);
      (exists t :: t in pool && ConditionMatches(t, IsExistingCustomer(record))) ==>
        ConditionMatches(SelectedTemplate(record, templates, variant).value, IsExistingCustomer(record))
  {
    var action := ActionKeyword(record.nextAction);
    var candidates := Candidates(templates, action);
    var existing := IsExistingCustomer(record);
    PickChoice(candidates, existing);
    if variant.Some? {
      var vcs := OfVariant(candidates, variant.value);
      PickChoice(vcs, existing);
      if exists t :: t in templates && Applies(t, action) && t.variant == variant {
        var t :| t in templates && Applies(t, action) && t.variant == variant;
        assert t in vcs;
      }
    }
    if candidates == [] {
      assert forall t :: t in templates ==> !Applies(t, action);
    }
  }

  /** A contact link: the text shown and the address it opens. */
  datatype Contact = Contact(caption: string, url: string)

  /** The first index at or after `from` holding `c`, or `|s|`. */
  function CharFrom(s: string, c: char, from: nat): (r: nat)
    requires from <= |s|
    ensures from <= r <= |s| && (r < |s| ==> s[r] == c)
    ensures forall k :: from <= k < r ==> s[k] != c
    decreases |s| - from
  {
    if from == |s| || s[from] == c then from else CharFrom(s, c, from + 1)
  }

  /** A match of `\[([^\]]+)]\(([^)]+)\)` starting at `i`, with its two groups. */
  function LinkAt(s: string, i: nat): Option<Contact>
    requires i <= |s|
  {
    if i < |s| && s[i] == '[' then
      var j := CharFrom(s, ']', i + 1);
      if i + 1 < j < |s| - 1 && s[j + 1] == '(' then
        var k := CharFrom(s, ')', j + 2);
        if j + 2 < k < |s| then Some(Contact(s[i + 1..j], s[j + 2..k])) else None
      else None
    else None
  }

  /** The leftmost match at or after `from`. */
  function FindLink(s: string, from: nat): Option<Contact>
    requires from <= |s|
    decreases |s| - from
  {
    if from == |s| then None
    else if LinkAt(s, from).Some? then LinkAt(s, from)
    else FindLink(s, from + 1)
  }

  /** `parseContact`: a Markdown link gives its text and address; a bare `http…` address opens as 開く. */
  function ParseContact(value: string): (r: Option<Contact>)
    ensures value == "" ==> r.None?
    ensures r.Some? && r.value.caption != "開く" ==> '[' in value
  {
    if value == "" then None
    else
      var link := FindLink(value, 0);
      FoundLinkHasBracket(value);
      if link.Some? then link
      else if StartsWith(value, "http") then Some(Contact("開く", value))
      else None
  }

  lemma {:induction false} NoBracketNoLink(s: string, from: nat)
    requires from <= |s|
    requires forall k :: from <= k < |s| ==> s[k] != '['
    ensures FindLink(s, from).None?
    decreases |s| - from
  {
    if from < |s| {
      NoBracketNoLink(s, from + 1);
    }
  }

  lemma {:induction false} FindLinkSkips(s: string, from: nat, to: nat)
    requires from <= to <= |s|
    requires forall k :: from <= k < to ==> s[k] != '['
    ensures FindLink(s, from) == FindLink(s, to)
    decreases |s| - from
  {
    if from < to {
      FindLinkSkips(s, from + 1, to);
    }
  }

  lemma FoundLinkHasBracket(value: string)
    requires value != ""
    ensures FindLink(value, 0).Some? ==> '[' in value
  {
    if '[' !in value {
      NoBracketNoLink(value, 0);
    }
  }

  /**
   * A Markdown link `[text](address)` after text without '[' gives that text and that address,
   * whatever follows.
   */
  lemma ParseMarkdownLink(pre: string, caption: string, url: string, post: string)
    requires '[' !in pre
    requires caption != "" && ']' !in caption && url != "" && ')' !in url
    ensures ParseContact(pre + "[" + caption + "](" + url + ")" + post) == Some(Contact(caption, url))
  {
    var t := "[" + caption + "](" + url + ")" + post;
    var s := pre + t;
    assert pre + "[" + caption + "](" + url + ")" + post == s;
    LinkInText(pre, t, caption, url);
    assert forall q :: 0 <= q < |pre| ==> s[q] == pre[q];
    FindLinkSkips(s, 0, |pre|);
  }

  /** The link found at the bracket that follows `pre`. */
  lemma LinkInText(pre: string, t: string, caption: string, url: string)
    requires caption != "" && ']' !in caption && url != "" && ')' !in url
    requires StartsWith(t, "[" + caption + "](" + url + ")")
    ensures |pre| < |pre + t| && LinkAt(pre + t, |pre|) == Some(Contact(caption, url))
  {
    var s := pre + t;
    var i := |pre|;
    var j := i + 1 + |caption|;
    var k := j + 2 + |url|;
    var link := "[" + caption + "](" + url + ")";
    LinkTextShape(caption, url, "");
    assert link + "" == link;
    assert s[i..i + |link|] == link;
    assert s[i + 1..j] == link[1..1 + |caption|];
    assert s[j + 2..k] == link[3 + |caption|..3 + |caption| + |url|];
    assert s[i] == link[0] && s[j] == link[1 + |caption|] && s[j + 1] == link[2 + |caption|] && s[k] == link[k - i];
    LinkAtShape(s, i, j, k);
  }

  /** Where the parts of `[caption](url)` lie. */
  lemma LinkTextShape(caption: string, url: string, post: string)
    ensures var t := "[" + caption + "](" + url + ")" + post;
      var j := 1 + |caption|;
      && |t| == j + 3 + |url| + |post|
      && t[0] == '[' && t[1..j] == caption && t[j] == ']' && t[j + 1] == '('
      && t[j + 2..j + 2 + |url|] == url && t[j + 2 + |url|] == ')'
  {
  }

  /** A link match located by its bracket, its closing bracket and its closing parenthesis. */
  lemma LinkAtShape(s: string, i: nat, j: nat, k: nat)
    requires i + 1 < j && j + 2 < k < |s|
    requires s[i] == '[' && s[j] == ']' && s[j + 1] == '(' && s[k] == ')'
    requires ']' !in s[i + 1..j] && ')' !in s[j + 2..k]
    ensures LinkAt(s, i) == Some(Contact(s[i + 1..j], s[j + 2..k]))
  {
    assert forall q :: i + 1 <= q < j ==> s[q] == s[i + 1..j][q - i - 1];
    assert CharFrom(s, ']', i + 1) == j;
    assert forall q :: j + 2 <= q < k ==> s[q] == s[j + 2..k][q - j - 2];
    assert CharFrom(s, ')', j + 2) == k;
  }

  /** A bare address without '[' opens as 開く; any other text without '[' is no contact. */
  lemma ParsePlainContact(value: string)
    requires value != "" && '[' !in value
    ensures StartsWith(value, "http") ==> ParseContact(value) == Some(Contact("開く", value))
    ensures !StartsWith(value, "http") ==> ParseContact(value).None?
  {
    NoBracketNoLink(value, 0);
  }

  /** `inferMemo`: the notes when there are any, otherwise a phrase chosen by the action. */
  function InferMemo(record: CustomerRecord): (r: string)
    ensures r != "" && r != "-"
    ensures record.notes != "" && record.notes != "-" ==> r == record.notes
    ensures record.notes == "" || record.notes == "-" ==>
      r in ["現在進行中の案件", "これまでのやり取り", "これまでの案件"]
      && (r == "現在進行中の案件" <==> Contains(record.nextAction, FollowUpAction))
      && (r == "これまでのやり取り" <==> !Contains(record.nextAction, FollowUpAction) && Contains(record.nextAction, NewProposal))
  {
    if record.notes != "" && record.notes != "-" then record.notes
    else if Contains(record.nextAction, FollowUpAction) then "現在進行中の案件"
    else if Contains(record.nextAction, NewProposal) then "これまでのやり取り"
    else "これまでの案件"
  }

  /** `replacePlaceholders`: every occurrence of each key is replaced, the pairs taken in order. */
  function ReplacePlaceholders(text: string, replacements: seq<(string, string)>): string
    requires forall i :: 0 <= i < |replacements| ==> |replacements[i].0| > 0
  {
    if replacements == [] then text
    else
      var last := replacements[|replacements| - 1];
      ReplaceAll(ReplacePlaceholders(text, replacements[..|replacements| - 1]), last.0, last.1)
  }

  /** Replacing with two tables in turn is replacing with the two joined. */
  lemma {:induction false} ReplacePlaceholdersAppend(text: string, first: seq<(string, string)>, second: seq<(string, string)>)
    requires forall i :: 0 <= i < |first| ==> |first[i].0| > 0
    requires forall i :: 0 <= i < |second| ==> |second[i].0| > 0
    ensures forall i :: 0 <= i < |first + second| ==> |(first + second)[i].0| > 0
    ensures ReplacePlaceholders(text, first + second) == ReplacePlaceholders(ReplacePlaceholders(text, first), second)
    decreases |second|
  {
    if second == [] {
      assert first + second == first;
    } else {
      var n := |second| - 1;
      assert (first + second)[..|first + second| - 1] == first + second[..n];
      ReplacePlaceholdersAppend(text, first, second[..n]);
    }
  }

  /** A text containing none of the keys comes back unchanged. */
  lemma {:induction false} ReplacePlaceholdersAbsent(text: string, replacements: seq<(string, string)>)
    requires forall i :: 0 <= i < |replacements| ==> |replacements[i].0| > 0 && !Contains(text, replacements[i].0)
    ensures ReplacePlaceholders(text, replacements) == text
    decreases |replacements|
  {
    if replacements != [] {
      var n := |replacements| - 1;
      ReplacePlaceholdersAbsent(text, replacements[..n]);
      ReplaceAllAbsent(text, replacements[n].0, replacements[n].1);
    }
  }

  /** One key occurring once, after text that cannot start it, is replaced by its value. */
  lemma ReplaceOnePlaceholder(a: string, key: string, b: string, value: string)
    requires |key| > 0 && key[0] !in a && !Contains(b, key)
    ensures ReplacePlaceholders(a + key + b, [(key, value)]) == a + value + b
  {
    assert [(key, value)][..0] == [];
    ReplaceAllFirst(a, key, b, value);
    ReplaceAllAbsent(b, key, value);
  }

  /** `Math.max(0, floor((now - lastDate) / day))`: whole days since the last contact, never negative. */
  function ElapsedDays(lastDay: Option<int>, now: Now): (r: Option<nat>)
    ensures r.Some? <==> lastDay.Some?
  {
    match lastDay
    case None => None
    case Some(d) => Some(if now.today - d < 0 then 0 else now.today - d)
  }

  const FrequentRecent := "いつもありがとうございます"
  const Regular := "いつもお世話になっております"
  const Before := "以前はありがとうございました"

  /** The greeting that opens a message, from the transaction count and the days since the last contact. */
  function GreetingPrefix(count: Option<int>, diffDays: Option<nat>): string {
    if count.Some? && count.value >= 2 && diffDays.Some? && diffDays.value < 120 then
      if diffDays.value < 30 then FrequentRecent else Regular
    else if diffDays.None? then
      if count.Some? && count.value >= 2 then Regular else Before
    else if diffDays.value <= 7 then "先日はありがとうございました"
    else if diffDays.value <= 30 then "この度はありがとうございました"
    else if diffDays.value <= 90 then Before
    else if diffDays.value <= 180 then "ご無沙汰しております"
    else if diffDays.value <= 365 then "お久しぶりです"
    else "大変ご無沙汰しております"
  }

  /** The elapsed-day buckets as a table of inclusive upper bounds; the last entry has none. */
  const ElapsedBuckets: seq<(int, string)> := [
    (7, "先日はありがとうございました"),
    (30, "この度はありがとうございました"),
    (90, Before),
    (180, "ご無沙汰しております"),
    (365, "お久しぶりです")]

  function BucketPhrase(days: nat, buckets: seq<(int, string)>): string {
    if buckets == [] then "大変ご無沙汰しております"
    else if days <= buckets[0].0 then buckets[0].1
    else BucketPhrase(days, buckets[1..])
  }

  /**
   * A customer with two or more transactions and a contact less than 120 days ago gets a
   * regular-customer greeting; with no known contact date the count alone decides; every other
   * customer's greeting is the first bucket whose bound the elapsed days do not pass.
   */
  lemma GreetingPrefixCases(count: Option<int>, diffDays: Option<nat>)
    ensures count.Some? && count.value >= 2 && diffDays.Some? && diffDays.value < 120 ==>
      GreetingPrefix(count, diffDays) == (if diffDays.value < 30 then FrequentRecent else Regular)
    ensures diffDays.None? ==>
      GreetingPrefix(count, diffDays) == (if count.Some? && count.value >= 2 then Regular else Before)
    ensures diffDays.Some? && !(count.Some? && count.value >= 2 && diffDays.value < 120) ==>
      GreetingPrefix(count, diffDays) == BucketPhrase(diffDays.value, ElapsedBuckets)
  {
    if diffDays.Some? {
      var d := diffDays.value;
      var b1 := ElapsedBuckets[1..];
      var b2 := b1[1..];
      var b3 := b2[1..];
      var b4 := b3[1..];
      assert b4[1..] == [];
      assert BucketPhrase(d, b4) == if d <= 365 then "お久しぶりです" else "大変ご無沙汰しております";
      assert BucketPhrase(d, b3) == if d <= 180 then "ご無沙汰しております" else BucketPhrase(d, b4);
      assert BucketPhrase(d, b2) == if d <= 90 then Before else BucketPhrase(d, b3);
      assert BucketPhrase(d, b1) == if d <= 30 then "この度はありがとうございました" else BucketPhrase(d, b2);
    }
  }

  /** A regular customer (two or more transactions) seen within 120 days is greeted as 'いつも…' only. */
  lemma FrequentGreeting(count: int, days: nat)
    requires count >= 2 && days < 120
    ensures GreetingPrefix(Some(count), Some(days)) in {FrequentRecent, Regular}
    ensures days >= 30 <==> GreetingPrefix(Some(count), Some(days)) == Regular
  {
  }

  /** `buildGreetingPhrase`, with today's date passed in. */
  function BuildGreetingPhrase(record: CustomerRecord, companyName: string, personDisplay: string, now: Now): (r: string)
    ensures var prefix := GreetingPrefix(ParseInt(record.transactionCount),
      ElapsedDays(ParseLastContactDate(record.lastContactDate), now));
      StartsWith(r, prefix) && r[|prefix|..] == "、" + companyName + "の" + personDisplay + "です。"
  {
    var prefix := GreetingPrefix(ParseInt(record.transactionCount), ElapsedDays(ParseLastContactDate(record.lastContactDate), now));
    var rest := "、" + companyName + "の" + personDisplay + "です。";
    PrefixThenRest(prefix, rest);
    prefix + rest
  }

  lemma PrefixThenRest(prefix: string, rest: string)
    ensures StartsWith(prefix + rest, prefix) && (prefix + rest)[|prefix|..] == rest
  {
    assert (prefix + rest)[..|prefix|] == prefix;
  }
}
