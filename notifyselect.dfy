/**
 * Which customers the notification check reports, and the priority order it reports them in.
 */
module NotifySelect {
  import opened Wrappers
  import opened Text
  import opened Calendar
  import opened Types
  import opened FollowUp
  import opened RouteDates

  /** A text field that holds a value: not empty and not the `-` placeholder. */
  predicate IsPresent(s: string) {
    s != "" && s != "-"
  }

  /** The check skips an empty action, an action that is exactly 完了, and the `-` placeholder. */
  predicate IsNotifiableAction(action: string) {
    IsPresent(action) && action != Done
  }

  /**
   * The day a customer is due: the stored scheduled date when it is present and parses;
   * otherwise the day computed from a present last contact date.
   */
  function DueDay(customer: CustomerRecord, now: Now): (r: Option<int>)
    ensures r.Some? ==> r == ParseDate(customer.scheduledDate, now) || r == ComputedDay(customer, now)
  {
    var stored := if IsPresent(customer.scheduledDate) then ParseDate(customer.scheduledDate, now) else None;
    if stored.None? && IsPresent(customer.lastContactDate) then ComputedDay(customer, now)
    else stored
  }

  /** The guards around the stored and the last contact date add nothing to `parseDate`'s own. */
  lemma DueDayPrefersStored(customer: CustomerRecord, now: Now)
    ensures ParseDate(customer.scheduledDate, now).Some? ==> DueDay(customer, now) == ParseDate(customer.scheduledDate, now)
    ensures ParseDate(customer.scheduledDate, now).None? ==> DueDay(customer, now) == ComputedDay(customer, now)
  {
  }

  /** A customer is reported when the action is live and the due day is today or tomorrow. */
  predicate ShouldNotify(customer: CustomerRecord, now: Now) {
    IsNotifiableAction(customer.nextAction)
    && DueDay(customer, now).Some? && IsWithinDays(DueDay(customer, now).value, 1, now)
  }

  /** The reported customers, in their stored order. */
  function NotifyList(customers: seq<CustomerRecord>, now: Now): (r: seq<CustomerRecord>)
    ensures |r| <= |customers|
  {
    if customers == [] then []
    else
      var last := customers[|customers| - 1];
      NotifyList(customers[..|customers| - 1], now) + (if ShouldNotify(last, now) then [last] else [])
  }

  /** `getCustomersToNotify`. */
  method GetCustomersToNotify(customers: seq<CustomerRecord>, now: Now) returns (targetCustomers: seq<CustomerRecord>)
    ensures targetCustomers == NotifyList(customers, now)
  {
    targetCustomers := [];
    for i := 0 to |customers|
      invariant targetCustomers == NotifyList(customers[..i], now)
    {
      var customer := customers[i];
      assert customers[..i + 1][..i] == customers[..i];
      if customer.nextAction == "" || customer.nextAction == Done || customer.nextAction == "-" {
        continue;
      }
      var scheduledDate := DueDate(customer, now);
      if scheduledDate.Some? && IsWithinDays(scheduledDate.value, 1, now) {
        targetCustomers := targetCustomers + [customer];
      }
    }
    assert customers[..|customers|] == customers;
  }

  /** The due day as the loop of `getCustomersToNotify` finds it. */
  method DueDate(customer: CustomerRecord, now: Now) returns (scheduledDate: Option<int>)
    ensures scheduledDate == DueDay(customer, now)
  {
    scheduledDate := None;
    if customer.scheduledDate != "" && customer.scheduledDate != "-" {
      scheduledDate := ParseDate(customer.scheduledDate, now);
    }
    if scheduledDate.None? && customer.lastContactDate != "" && customer.lastContactDate != "-" {
      scheduledDate := CalculateScheduledDate(customer, now);
    }
  }

  /** Exactly the stored customers that satisfy the rule are reported. */
  lemma {:induction false} NotifyListMembers(customers: seq<CustomerRecord>, now: Now, c: CustomerRecord)
    ensures c in NotifyList(customers, now) <==> c in customers && ShouldNotify(c, now)
    decreases |customers|
  {
    if customers != [] {
      var init := customers[..|customers| - 1];
      NotifyListMembers(init, now, c);
      assert customers == init + [customers[|customers| - 1]];
    }
  }

  /** Selection works record by record: selecting from two lists joined is joining the selections. */
  lemma {:induction false} NotifyListAppend(a: seq<CustomerRecord>, b: seq<CustomerRecord>, now: Now)
    ensures NotifyList(a + b, now) == NotifyList(a, now) + NotifyList(b, now)
    decreases |b|
  {
    if b == [] {
      assert a + b == a;
    } else {
      var init := b[..|b| - 1];
      NotifyListAppend(a, init, now);
      assert (a + b)[..|a + b| - 1] == a + init;
      assert (a + b)[|a + b| - 1] == b[|b| - 1];
    }
  }

  /** Running the selection on its own output reports the same customers again. */
  lemma {:induction false} NotifyListIdempotent(customers: seq<CustomerRecord>, now: Now)
    ensures NotifyList(NotifyList(customers, now), now) == NotifyList(customers, now)
    decreases |customers|
  {
    if customers != [] {
      var init := customers[..|customers| - 1];
      var last := customers[|customers| - 1];
      var tail := if ShouldNotify(last, now) then [last] else [];
      NotifyListIdempotent(init, now);
      NotifyListAppend(NotifyList(init, now), tail, now);
      if ShouldNotify(last, now) {
        assert tail[..0] == [];
      }
    }
  }

  /**
   * A reported customer has a live action and is due today or tomorrow; an action of 未設定
   * is reported only through a stored scheduled date, since nothing is computed for it.
   */
  lemma NotifiedAreDue(customers: seq<CustomerRecord>, now: Now, c: CustomerRecord)
    requires c in NotifyList(customers, now)
    ensures c.nextAction != "" && c.nextAction != Done && c.nextAction != "-"
    ensures DueDay(c, now).Some? && now.today <= DueDay(c, now).value <= now.today + 1
    ensures c.nextAction == Unset ==> DueDay(c, now) == ParseDate(c.scheduledDate, now)
  {
    NotifyListMembers(customers, now, c);
  }

  /**
   * `priorityOrder[action] || 999`: only an exact label match has a rank below 999. A label
   * naming an inherited `Object.prototype` key is ranked 999 here like any other unknown label.
   */
  function PriorityRank(action: string): (rank: nat)
    ensures rank in Ranks
    ensures rank < 999 <==> action in [Recontact, Closing, FollowUpAction, Remind, NewProposal, RepeatProposal, InTrade]
  {
    if action == Recontact then 1
    else if action == Closing then 2
    else if action == FollowUpAction then 3
    else if action == Remind then 4
    else if action == NewProposal then 5
    else if action == RepeatProposal then 6
    else if action == InTrade then 7
    else 999
  }

  /** Every rank a label can get, in increasing order. */
  const Ranks: seq<nat> := [1, 2, 3, 4, 5, 6, 7, 999]

  function Rank(c: CustomerRecord): nat {
    PriorityRank(c.nextAction)
  }

  lemma RankInRanks(c: CustomerRecord)
    ensures Rank(c) in Ranks
  {
  }

  /*
   * The sort below works for any key function; it is applied with `Rank`. Keeping the key
   * abstract spares the proofs from unfolding the chain of label tests.
   */

  /** The elements of key `k`, in their order. */
  function KeyFilter<T(==)>(xs: seq<T>, key: T -> nat, k: nat): (r: seq<T>)
    ensures forall x :: x in r ==> x in xs && key(x) == k
  {
    if xs == [] then []
    else (if key(xs[0]) == k then [xs[0]] else []) + KeyFilter(xs[1..], key, k)
  }

  /** The elements of any key but `k`, in their order. */
  function KeyReject<T(==)>(xs: seq<T>, key: T -> nat, k: nat): (r: seq<T>)
    ensures forall x :: x in r ==> x in xs && key(x) != k
  {
    if xs == [] then []
    else (if key(xs[0]) != k then [xs[0]] else []) + KeyReject(xs[1..], key, k)
  }

  /** The elements grouped by the keys in `keys`, one group after the other. */
  function Buckets<T(==)>(xs: seq<T>, key: T -> nat, keys: seq<nat>): (r: seq<T>)
    ensures forall x :: x in r ==> x in xs && key(x) in keys
    decreases |keys|
  {
    if keys == [] then []
    else KeyFilter(xs, key, keys[0]) + Buckets(KeyReject(xs, key, keys[0]), key, keys[1..])
  }

  /** `customers.sort((a, b) => rank(a) - rank(b))`, a stable sort by rank. */
  function SortByPriority(cs: seq<CustomerRecord>): seq<CustomerRecord> {
    Buckets(cs, Rank, Ranks)
  }

  predicate SortedBy<T>(xs: seq<T>, key: T -> nat) {
    forall i, j :: 0 <= i < j < |xs| ==> key(xs[i]) <= key(xs[j])
  }

  predicate StrictlyIncreasing(keys: seq<nat>) {
    forall i, j :: 0 <= i < j < |keys| ==> keys[i] < keys[j]
  }

  lemma {:induction false} BucketsSorted<T>(xs: seq<T>, key: T -> nat, keys: seq<nat>)
    requires StrictlyIncreasing(keys)
    ensures SortedBy(Buckets(xs, key, keys), key)
    decreases |keys|
  {
    if keys != [] {
      var head := KeyFilter(xs, key, keys[0]);
      var rest := Buckets(KeyReject(xs, key, keys[0]), key, keys[1..]);
      assert StrictlyIncreasing(keys[1..]);
      BucketsSorted(KeyReject(xs, key, keys[0]), key, keys[1..]);
      forall x | x in rest
        ensures key(x) > keys[0]
      {
        var k :| 0 <= k < |keys[1..]| && keys[1..][k] == key(x);
        assert keys[k + 1] == key(x);
      }
      var r := head + rest;
      forall i, j | 0 <= i < j < |r|
        ensures key(r[i]) <= key(r[j])
      {
        if j < |head| {
          assert r[i] in head && r[j] in head;
        } else if i < |head| {
          assert r[i] in head && r[j] == rest[j - |head|];
          assert rest[j - |head|] in rest;
        } else {
          assert r[i] == rest[i - |head|] && r[j] == rest[j - |head|];
        }
      }
    }
  }

  lemma {:induction false} FilterRejectSplit<T>(xs: seq<T>, key: T -> nat, k: nat)
    ensures multiset(xs) == multiset(KeyFilter(xs, key, k)) + multiset(KeyReject(xs, key, k))
    decreases |xs|
  {
    if xs != [] {
      FilterRejectSplit(xs[1..], key, k);
      assert xs == [xs[0]] + xs[1..];
    }
  }

  lemma {:induction false} BucketsPermutation<T>(xs: seq<T>, key: T -> nat, keys: seq<nat>)
    requires forall x :: x in xs ==> key(x) in keys
    ensures multiset(Buckets(xs, key, keys)) == multiset(xs)
    decreases |keys|
  {
    if keys != [] {
      var rest := KeyReject(xs, key, keys[0]);
      forall x | x in rest
        ensures key(x) in keys[1..]
      {
        assert key(x) in keys && key(x) != keys[0];
        var k :| 0 <= k < |keys| && keys[k] == key(x);
        assert keys[1..][k - 1] == key(x);
      }
      BucketsPermutation(rest, key, keys[1..]);
      FilterRejectSplit(xs, key, keys[0]);
    }
  }

  lemma {:induction false} KeyFilterAppend<T>(a: seq<T>, b: seq<T>, key: T -> nat, k: nat)
    ensures KeyFilter(a + b, key, k) == KeyFilter(a, key, k) + KeyFilter(b, key, k)
    decreases |a|
  {
    if a == [] {
      assert a + b == b;
    } else {
      KeyFilterAppend(a[1..], b, key, k);
      assert (a + b)[0] == a[0] && (a + b)[1..] == a[1..] + b;
      var h := if key(a[0]) == k then [a[0]] else [];
      assert KeyFilter(a + b, key, k) == h + KeyFilter(a[1..] + b, key, k);
      assert KeyFilter(a, key, k) == h + KeyFilter(a[1..], key, k);
      AppendAssoc(h, KeyFilter(a[1..], key, k), KeyFilter(b, key, k));
    }
  }

  lemma {:induction false} KeyFilterOfFilter<T>(xs: seq<T>, key: T -> nat, j: nat, k: nat)
    ensures KeyFilter(KeyFilter(xs, key, j), key, k) == if j == k then KeyFilter(xs, key, k) else []
    decreases |xs|
  {
    if xs != [] {
      var head := if key(xs[0]) == j then [xs[0]] else [];
      KeyFilterOfFilter(xs[1..], key, j, k);
      KeyFilterAppend(head, KeyFilter(xs[1..], key, j), key, k);
      if key(xs[0]) == j {
        assert head[1..] == [];
      }
    }
  }

  lemma {:induction false} KeyFilterOfReject<T>(xs: seq<T>, key: T -> nat, j: nat, k: nat)
    ensures KeyFilter(KeyReject(xs, key, j), key, k) == if j == k then [] else KeyFilter(xs, key, k)
    decreases |xs|
  {
    if xs != [] {
      var head := if key(xs[0]) != j then [xs[0]] else [];
      KeyFilterOfReject(xs[1..], key, j, k);
      KeyFilterAppend(head, KeyReject(xs[1..], key, j), key, k);
      if key(xs[0]) != j {
        assert head[1..] == [];
      }
    }
  }

  lemma {:induction false} BucketsStable<T>(xs: seq<T>, key: T -> nat, keys: seq<nat>, k: nat)
    ensures KeyFilter(Buckets(xs, key, keys), key, k) == if k in keys then KeyFilter(xs, key, k) else []
    decreases |keys|
  {
    if keys != [] {
      var rest := KeyReject(xs, key, keys[0]);
      KeyFilterAppend(KeyFilter(xs, key, keys[0]), Buckets(rest, key, keys[1..]), key, k);
      KeyFilterOfFilter(xs, key, keys[0], k);
      BucketsStable(rest, key, keys[1..], k);
      KeyFilterOfReject(xs, key, keys[0], k);
      assert k in keys <==> k == keys[0] || k in keys[1..];
    }
  }

  lemma {:induction false} KeyFilterAbsent<T>(xs: seq<T>, key: T -> nat, k: nat)
    requires forall x :: x in xs ==> key(x) != k
    ensures KeyFilter(xs, key, k) == []
    decreases |xs|
  {
    if xs != [] {
      KeyFilterAbsent(xs[1..], key, k);
    }
  }

  /**
   * The priority sort orders by rank, keeps every customer (a permutation), and keeps the
   * stored order among customers of the same rank (stable).
   */
  lemma SortByPriorityCorrect(cs: seq<CustomerRecord>)
    ensures SortedBy(SortByPriority(cs), Rank)
    ensures multiset(SortByPriority(cs)) == multiset(cs)
    ensures forall k :: KeyFilter(SortByPriority(cs), Rank, k) == KeyFilter(cs, Rank, k)
  {
    BucketsSorted(cs, Rank, Ranks);
    forall c | c in cs
      ensures Rank(c) in Ranks
    {
      RankInRanks(c);
    }
    BucketsPermutation(cs, Rank, Ranks);
    forall k
      ensures KeyFilter(SortByPriority(cs), Rank, k) == KeyFilter(cs, Rank, k)
    {
      BucketsStable(cs, Rank, Ranks, k);
      if k !in Ranks {
        forall c | c in cs
          ensures Rank(c) != k
        {
          RankInRanks(c);
        }
        KeyFilterAbsent(cs, Rank, k);
      }
    }
  }

  /** The ranks follow the fixed label order, and any other label sorts after all of them. */
  lemma PriorityOrder()
    ensures PriorityRank(Recontact) < PriorityRank(Closing) < PriorityRank(FollowUpAction)
      < PriorityRank(Remind) < PriorityRank(NewProposal) < PriorityRank(RepeatProposal) < PriorityRank(InTrade)
  {
  }
}
