/** The record shapes shared by the dashboard, the save endpoint and the notification check. */
module Types {
  import opened Wrappers

  /** One customer row: ten text fields and three tag flags. */
  datatype CustomerRecord = CustomerRecord(
    customerName: string,
    lastContactDate: string,
    nextAction: string,
    scheduledDate: string,
    contactUrl: string,
    transactionCount: string,
    totalAmount: string,
    gender: string,
    age: string,
    notes: string,
    hasHeart: bool,
    hasTrouble: bool,
    isFavorite: bool)

  /** The text-valued keys of a customer record. */
  datatype TextField =
    | CustomerName | LastContactDate | NextAction | ScheduledDate | ContactUrl
    | TransactionCount | TotalAmount | Gender | Age | Notes

  /** The boolean-valued keys of a customer record. */
  datatype Flag = HasHeart | HasTrouble | IsFavorite

  function GetText(r: CustomerRecord, f: TextField): string {
    match f
    case CustomerName => r.customerName
    case LastContactDate => r.lastContactDate
    case NextAction => r.nextAction
    case ScheduledDate => r.scheduledDate
    case ContactUrl => r.contactUrl
    case TransactionCount => r.transactionCount
    case TotalAmount => r.totalAmount
    case Gender => r.gender
    case Age => r.age
    case Notes => r.notes
  }

  function GetFlag(r: CustomerRecord, f: Flag): bool {
    match f
    case HasHeart => r.hasHeart
    case HasTrouble => r.hasTrouble
    case IsFavorite => r.isFavorite
  }

  /** `{ ...r, [f]: v }` for a text key. */
  function WithText(r: CustomerRecord, f: TextField, v: string): (u: CustomerRecord)
    ensures GetText(u, f) == v
    ensures forall g :: g != f ==> GetText(u, g) == GetText(r, g)
    ensures forall k :: GetFlag(u, k) == GetFlag(r, k)
  {
    match f
    case CustomerName => r.(customerName := v)
    case LastContactDate => r.(lastContactDate := v)
    case NextAction => r.(nextAction := v)
    case ScheduledDate => r.(scheduledDate := v)
    case ContactUrl => r.(contactUrl := v)
    case TransactionCount => r.(transactionCount := v)
    case TotalAmount => r.(totalAmount := v)
    case Gender => r.(gender := v)
    case Age => r.(age := v)
    case Notes => r.(notes := v)
  }

  /** `{ ...r, [f]: b }` for a tag key. */
  function WithFlag(r: CustomerRecord, f: Flag, b: bool): (u: CustomerRecord)
    ensures GetFlag(u, f) == b
    ensures forall k :: k != f ==> GetFlag(u, k) == GetFlag(r, k)
    ensures forall g :: GetText(u, g) == GetText(r, g)
  {
    match f
    case HasHeart => r.(hasHeart := b)
    case HasTrouble => r.(hasTrouble := b)
    case IsFavorite => r.(isFavorite := b)
  }

  /** Two records agree on every key exactly when they are equal. */
  lemma RecordExtensionality(a: CustomerRecord, b: CustomerRecord)
    requires forall g :: GetText(a, g) == GetText(b, g)
    requires forall k :: GetFlag(a, k) == GetFlag(b, k)
    ensures a == b
  {
    assert GetText(a, CustomerName) == GetText(b, CustomerName);
    assert GetText(a, LastContactDate) == GetText(b, LastContactDate);
    assert GetText(a, NextAction) == GetText(b, NextAction);
    assert GetText(a, ScheduledDate) == GetText(b, ScheduledDate);
    assert GetText(a, ContactUrl) == GetText(b, ContactUrl);
    assert GetText(a, TransactionCount) == GetText(b, TransactionCount);
    assert GetText(a, TotalAmount) == GetText(b, TotalAmount);
    assert GetText(a, Gender) == GetText(b, Gender);
    assert GetText(a, Age) == GetText(b, Age);
    assert GetText(a, Notes) == GetText(b, Notes);
    assert GetFlag(a, HasHeart) == GetFlag(b, HasHeart);
    assert GetFlag(a, HasTrouble) == GetFlag(b, HasTrouble);
    assert GetFlag(a, IsFavorite) == GetFlag(b, IsFavorite);
  }

  datatype Variant = Formal | Casual

  /** A template's `condition` object; `existing` is `None` when the object has no such key. */
  datatype TemplateCondition = TemplateCondition(existing: Option<bool>)

  /** A message template, with its optional variant and optional condition. */
  datatype TemplateDefinition = TemplateDefinition(
    id: string,
    actions: seq<string>,
    title: string,
    variant: Option<Variant>,
    condition: Option<TemplateCondition>,
    placeholders: seq<string>,
    template: string)
}
