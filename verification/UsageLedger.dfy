/** Metered usage of apps/api/src/modules/billing/billing.service.ts for one billing account: usage
    events, add-on grants, and the consumption of grants by usage beyond the plan. */
module UsageLedger {
  import opened Options
  import opened StableSort
  import P = Provisioning

  type Key = P.QuotaKey

  datatype Grant = Grant(key: Key, source: P.GrantSource, quantity: nat, consumed: nat, expiresAt: Option<int>,
                         createdAt: int) {
    predicate Valid() {
      consumed <= quantity
    }

    function Balance(): nat {
      if consumed <= quantity then quantity - consumed else 0
    }

    predicate Unexpired(now: int) {
      expiresAt.None? || expiresAt.value >= now
    }

    /** The rows that usage may consume. */
    predicate Eligible(k: Key, now: int) {
      key == k && (source.Addon? || source.Manual?) && Unexpired(now)
    }
  }

  datatype Event = Event(key: Key, uniqueKey: string, occurredAt: int)

  /** Grants stand in order of creation; a grant's position is its id. */
  datatype Ledger = Ledger(grants: seq<Grant>, events: seq<Event>)

  datatype Period = Period(start: int, end: int) {
    predicate Contains(t: int) {
      start <= t < end
    }
  }

  // ---- Which grant is consumed first ----

  /** The comparator: earlier expiry first, grants without expiry last and by age. */
  predicate Earlier(left: Grant, right: Grant) {
    if left.expiresAt.Some? && right.expiresAt.Some? then left.expiresAt.value < right.expiresAt.value
    else if left.expiresAt.Some? then true
    else if right.expiresAt.Some? then false
    else left.createdAt < right.createdAt
  }

  /** A grant as it was read, with its id. */
  datatype Row = Row(id: nat, grant: Grant)

  function EarlierRow(): (Row, Row) -> bool {
    (left: Row, right: Row) => Earlier(left.grant, right.grant)
  }

  function EligibleRows(grants: seq<Grant>, key: Key, now: int, n: nat): seq<Row>
    requires n <= |grants|
  {
    if n == 0 then []
    else
      var front := EligibleRows(grants, key, now, n - 1);
      if grants[n - 1].Eligible(key, now) then front + [Row(n - 1, grants[n - 1])] else front
  }

  /** The eligible grants in the order in which they are consumed. */
  function ConsumptionOrder(grants: seq<Grant>, key: Key, now: int): seq<Row> {
    Sort(EligibleRows(grants, key, now, |grants|), EarlierRow())
  }

  function Min(a: nat, b: nat): nat {
    if a <= b then a else b
  }

  function Increment(grants: seq<Grant>, id: nat, n: nat): (r: seq<Grant>)
    requires id < |grants|
    ensures |r| == |grants|
  {
    grants[id := grants[id].(consumed := grants[id].consumed + n)]
  }

  predicate InTable(rows: seq<Row>, grants: seq<Grant>) {
    forall i :: 0 <= i < |rows| ==> rows[i].id < |grants|
  }

  /** Take `need` units from the rows in order; what is still missing is the second result. */
  function Settle(grants: seq<Grant>, rows: seq<Row>, need: nat): (r: (seq<Grant>, nat))
    requires InTable(rows, grants)
    ensures |r.0| == |grants|
    decreases |rows|
  {
    if rows == [] || need == 0 then (grants, need)
    else
      var n := Min(rows[0].grant.Balance(), need);
      Settle(Increment(grants, rows[0].id, n), rows[1..], need - n)
  }

  // ---- Recording usage ----

  function Used(events: seq<Event>, key: Key, period: Period): nat {
    if events == [] then 0
    else
      var e := events[|events| - 1];
      Used(events[..|events| - 1], key, period) + if e.key == key && period.Contains(e.occurredAt) then 1 else 0
  }

  predicate Recorded(events: seq<Event>, uniqueKey: string) {
    exists i :: 0 <= i < |events| && events[i].uniqueKey == uniqueKey
  }

  /** Usage beyond what the plan includes. */
  function Overflow(used: nat, included: nat): nat {
    if used <= included then 0 else used - included
  }

  function NextOverflow(used: nat, included: nat): (d: nat)
    ensures d == if used >= included then 1 else 0
  {
    Overflow(used + 1, included) - Overflow(used, included)
  }

  /** A usage report; `allowed` is the account's access state. */
  datatype Usage = Usage(key: Key, uniqueKey: string, now: int, period: Period, included: nat, allowed: bool)

  datatype Outcome = Counted | AlreadyCounted | NoAccess | NoBalance

  /** The transaction of a report, with the usage read before it began. */
  function Commit(l: Ledger, u: Usage, used: nat): (Ledger, Outcome) {
    if Recorded(l.events, u.uniqueKey) then (l, AlreadyCounted)
    else
      var events := l.events + [Event(u.key, u.uniqueKey, u.now)];
      OrderInTable(l.grants, u.key, u.now);
      var need := NextOverflow(used, u.included);
      var (grants, missing) := Settle(l.grants, ConsumptionOrder(l.grants, u.key, u.now), need);
      if missing > 0 then (l, NoBalance) else (Ledger(grants, events), Counted)
  }

  /** A report whose transaction follows its reading at once. */
  function Record(l: Ledger, u: Usage): (Ledger, Outcome) {
    if !u.allowed then (l, NoAccess) else Commit(l, u, Used(l.events, u.key, u.period))
  }

  // ---- The rows ----

  /** The rows are current copies of distinct grants. */
  ghost predicate Current(rows: seq<Row>, grants: seq<Grant>) {
    && (forall i :: 0 <= i < |rows| ==> rows[i].id < |grants| && rows[i].grant == grants[rows[i].id])
    && (forall i, j :: 0 <= i < j < |rows| ==> rows[i].id != rows[j].id)
  }

  lemma {:induction false} EligibleCurrent(grants: seq<Grant>, key: Key, now: int, n: nat)
    requires n <= |grants|
    ensures var rows := EligibleRows(grants, key, now, n);
            && Current(rows, grants)
            && (forall r :: r in rows ==> r.id < n && grants[r.id].Eligible(key, now))
            && (forall i :: 0 <= i < n && grants[i].Eligible(key, now) ==> Row(i, grants[i]) in rows)
  {
    hide Grant.Eligible;
    if n > 0 {
      EligibleCurrent(grants, key, now, n - 1);
      var rows, front := EligibleRows(grants, key, now, n), EligibleRows(grants, key, now, n - 1);
      forall i | 0 <= i < |front| ensures front[i].id < n - 1 {
        assert front[i] in front;
      }
    }
  }

  lemma EarlierIsOrder()
    ensures StrictWeakOrder(EarlierRow())
  {
  }

  lemma CurrentPermutes(rows: seq<Row>, order: seq<Row>, grants: seq<Grant>)
    requires Current(rows, grants) && multiset(order) == multiset(rows)
    ensures Current(order, grants)
  {
    forall i | 0 <= i < |order| ensures order[i].id < |grants| && order[i].grant == grants[order[i].id] {
      assert order[i] in multiset(rows);
    }
    forall i, j | 0 <= i < j < |order| ensures order[i].id != order[j].id {
      if order[i].id == order[j].id {
        assert order[i] in multiset(rows) && order[j] in multiset(rows);
        assert order[i] == order[j];
        TwiceInSequence(order, i, j);
        OnceInRows(rows, grants, order[i]);
        assert false;
      }
    }
  }

  lemma TwiceInSequence<T>(s: seq<T>, i: nat, j: nat)
    requires i < j < |s| && s[i] == s[j]
    ensures multiset(s)[s[i]] >= 2
  {
    assert s == s[..i] + [s[i]] + s[i + 1..j] + [s[j]] + s[j + 1..];
  }

  lemma {:induction false} OnceInRows(rows: seq<Row>, grants: seq<Grant>, r: Row)
    requires Current(rows, grants)
    ensures multiset(rows)[r] <= 1
  {
    if rows != [] {
      assert rows == [rows[0]] + rows[1..];
      OnceInRows(rows[1..], grants, r);
      if r == rows[0] {
        assert r !in rows[1..];
      }
    }
  }

  function RowId(): Row -> int {
    (row: Row) => row.id
  }

  lemma {:induction false} EligibleInOrder(grants: seq<Grant>, key: Key, now: int, n: nat)
    requires n <= |grants|
    ensures var rows := EligibleRows(grants, key, now, n);
            forall i, j :: 0 <= i < j < |rows| ==> RowId()(rows[i]) < RowId()(rows[j])
  {
    if n > 0 {
      EligibleInOrder(grants, key, now, n - 1);
      EligibleCurrent(grants, key, now, n - 1);
      var front := EligibleRows(grants, key, now, n - 1);
      forall i | 0 <= i < |front| ensures front[i].id < n - 1 {
        assert front[i] in front;
      }
    }
  }

  lemma OrderIsSorted(grants: seq<Grant>, key: Key, now: int)
    ensures var order := ConsumptionOrder(grants, key, now);
            && Current(order, grants)
            && Sorted(order, EarlierRow()) && TiesByRank(order, EarlierRow(), RowId())
            && (forall r :: r in order ==> r.id < |grants| && grants[r.id].Eligible(key, now))
            && (forall i :: 0 <= i < |grants| && grants[i].Eligible(key, now) ==> Row(i, grants[i]) in order)
  {
    var rows := EligibleRows(grants, key, now, |grants|);
    var order := ConsumptionOrder(grants, key, now);
    EligibleCurrent(grants, key, now, |grants|);
    EarlierIsOrder();
    SortCorrect(rows, EarlierRow());
    EligibleInOrder(grants, key, now, |grants|);
    SortKeepsTies(rows, EarlierRow(), RowId());
    CurrentPermutes(rows, order, grants);
    assert forall r :: r in order <==> r in multiset(rows);
    assert forall r :: r in rows <==> r in multiset(rows);
  }

  /** An add-on or manual grant of the key that has not expired. */
  ghost predicate MayPay(g: Grant, key: Key, now: int) {
    g.key == key && (g.source.Addon? || g.source.Manual?) && (g.expiresAt.None? || g.expiresAt.value >= now)
  }

  /** The consumption order lists each grant that may pay once. The earlier expiry comes first, a grant without
      expiry after all that have one, and of two without the older one; the rest is by order of creation. */
  lemma OrderIsEligible(grants: seq<Grant>, key: Key, now: int, p: nat, q: nat)
    requires p < q < |ConsumptionOrder(grants, key, now)|
    ensures var order := ConsumptionOrder(grants, key, now);
            var x, y := order[p], order[q];
            && x.id < |grants| && x.grant == grants[x.id] && y.id < |grants| && y.grant == grants[y.id]
            && (y.grant.expiresAt.Some? ==>
                  x.grant.expiresAt.Some? && x.grant.expiresAt.value <= y.grant.expiresAt.value)
            && (x.grant.expiresAt.Some? && x.grant.expiresAt == y.grant.expiresAt ==> x.id < y.id)
            && (x.grant.expiresAt.None? ==> y.grant.expiresAt.None? && x.grant.createdAt <= y.grant.createdAt)
            && (x.grant.expiresAt.None? && x.grant.createdAt == y.grant.createdAt ==> x.id < y.id)
    ensures var order := ConsumptionOrder(grants, key, now);
            && (forall i, j :: 0 <= i < j < |order| ==> order[i].id != order[j].id)
            && (forall r :: r in order ==> r.id < |grants| && MayPay(grants[r.id], key, now))
            && (forall i :: 0 <= i < |grants| && MayPay(grants[i], key, now) ==> Row(i, grants[i]) in order)
  {
    hide ConsumptionOrder;
    OrderIsSorted(grants, key, now);
    var order := ConsumptionOrder(grants, key, now);
    assert EarlierRow()(order[p], order[q]) <==> Earlier(order[p].grant, order[q].grant);
    assert EarlierRow()(order[q], order[p]) <==> Earlier(order[q].grant, order[p].grant);
    assert !EarlierRow()(order[p], order[q]) ==> RowId()(order[p]) < RowId()(order[q]);
    assert forall g :: MayPay(g, key, now) <==> g.Eligible(key, now);
  }

  lemma OrderInTable(grants: seq<Grant>, key: Key, now: int)
    ensures InTable(ConsumptionOrder(grants, key, now), grants)
  {
    OrderIsSorted(grants, key, now);
  }

  // ---- Conservation ----

  function Consumed(grants: seq<Grant>, key: Key): nat {
    if grants == [] then 0
    else
      var g := grants[|grants| - 1];
      Consumed(grants[..|grants| - 1], key) + if g.key == key then g.consumed else 0
  }

  function Available(rows: seq<Row>): nat {
    if rows == [] then 0 else rows[0].grant.Balance() + Available(rows[1..])
  }

  lemma {:induction false} ConsumedIncrement(grants: seq<Grant>, id: nat, n: nat, key: Key)
    requires id < |grants|
    ensures Consumed(Increment(grants, id, n), key) == Consumed(grants, key) + if grants[id].key == key then n else 0
  {
    var after := Increment(grants, id, n);
    if id == |grants| - 1 {
      assert after[..|grants| - 1] == grants[..|grants| - 1];
    } else {
      assert after[..|grants| - 1] == Increment(grants[..|grants| - 1], id, n);
      ConsumedIncrement(grants[..|grants| - 1], id, n, key);
    }
  }

  ghost predicate ValidGrants(grants: seq<Grant>) {
    forall i :: 0 <= i < |grants| ==> grants[i].Valid()
  }

  lemma CurrentAfter(rows: seq<Row>, grants: seq<Grant>, n: nat)
    requires rows != [] && Current(rows, grants)
    ensures Current(rows[1..], Increment(grants, rows[0].id, n))
  {
  }

  lemma {:induction false} SettleAmount(grants: seq<Grant>, rows: seq<Row>, need: nat, key: Key, k: Key)
    requires Current(rows, grants) && forall r :: r in rows ==> r.grant.key == key
    ensures InTable(rows, grants)
    ensures var (after, missing) := Settle(grants, rows, need);
            && missing == need - Min(Available(rows), need)
            && Consumed(after, k) == Consumed(grants, k) + if k == key then need - missing else 0
    decreases |rows|
  {
    hide Consumed;
    if rows != [] && need != 0 {
      var n := Min(rows[0].grant.Balance(), need);
      assert rows[0] in rows;
      CurrentAfter(rows, grants, n);
      ConsumedIncrement(grants, rows[0].id, n, k);
      SettleAmount(Increment(grants, rows[0].id, n), rows[1..], need - n, key, k);
    }
  }

  /** A grant may have more consumed, and is not overdrawn by it. */
  ghost predicate MoreConsumed(before: Grant, after: Grant) {
    && after == before.(consumed := after.consumed) && after.consumed >= before.consumed
    && (before.Valid() ==> after.Valid())
  }

  lemma {:induction false} SettleOnlyConsumes(grants: seq<Grant>, rows: seq<Row>, need: nat)
    requires Current(rows, grants)
    ensures InTable(rows, grants)
    ensures forall i :: 0 <= i < |grants| ==> MoreConsumed(grants[i], Settle(grants, rows, need).0[i])
    decreases |rows|
  {
    if rows != [] && need != 0 {
      var n := Min(rows[0].grant.Balance(), need);
      CurrentAfter(rows, grants, n);
      SettleOnlyConsumes(Increment(grants, rows[0].id, n), rows[1..], need - n);
    }
  }

  /** Settling takes exactly what is needed, or all there is, and only from grants of the key; nothing
      else about a grant changes, and none is overdrawn that was not. */
  lemma SettleConserves(grants: seq<Grant>, rows: seq<Row>, need: nat, key: Key)
    requires Current(rows, grants) && forall r :: r in rows ==> r.grant.key == key
    ensures InTable(rows, grants)
    ensures var (after, missing) := Settle(grants, rows, need);
            && missing == need - Min(Available(rows), need)
            && Consumed(after, key) == Consumed(grants, key) + need - missing
            && (forall other :: other != key ==> Consumed(after, other) == Consumed(grants, other))
            && (forall i :: 0 <= i < |grants| ==> MoreConsumed(grants[i], after[i]))
  {
    hide Settle, Consumed, Available, MoreConsumed;
    SettleAmount(grants, rows, need, key, key);
    SettleOnlyConsumes(grants, rows, need);
    forall other | other != key ensures Consumed(Settle(grants, rows, need).0, other) == Consumed(grants, other) {
      SettleAmount(grants, rows, need, key, other);
    }
  }

  /** A later row is touched only when every earlier row is used up. */
  lemma {:induction false} SettleInOrder(grants: seq<Grant>, rows: seq<Row>, need: nat, p: nat, q: nat)
    requires Current(rows, grants) && p < q < |rows|
    ensures InTable(rows, grants)
    ensures var after := Settle(grants, rows, need).0;
            after[rows[q].id] != grants[rows[q].id] ==> after[rows[p].id].Balance() == 0
    decreases |rows|
  {
    if need != 0 {
      var n := Min(rows[0].grant.Balance(), need);
      var next := Increment(grants, rows[0].id, n);
      CurrentAfter(rows, grants, n);
      assert rows[q] == rows[1..][q - 1] && rows[q].id != rows[0].id;
      if p > 0 {
        assert rows[p] == rows[1..][p - 1];
        SettleInOrder(next, rows[1..], need - n, p - 1, q - 1);
      } else {
        SettleLeaves(next, rows[1..], need - n, rows[0].id);
      }
    }
  }

  lemma {:induction false} SettleLeaves(grants: seq<Grant>, rows: seq<Row>, need: nat, id: nat)
    requires InTable(rows, grants) && id < |grants| && forall i :: 0 <= i < |rows| ==> rows[i].id != id
    ensures Settle(grants, rows, need).0[id] == grants[id]
    decreases |rows|
  {
    if rows != [] && need != 0 {
      var n := Min(rows[0].grant.Balance(), need);
      SettleLeaves(Increment(grants, rows[0].id, n), rows[1..], need - n, id);
    }
  }

  // ---- Stock ----

  predicate FromStock(g: Grant, key: Key) {
    g.key == key && (g.source.Addon? || g.source.Manual?)
  }

  /** Units left in a key's add-on and manual grants, expired or not. */
  function Stock(grants: seq<Grant>, key: Key): nat {
    if grants == [] then 0
    else
      var g := grants[|grants| - 1];
      Stock(grants[..|grants| - 1], key) + if FromStock(g, key) then g.Balance() else 0
  }

  /** Consuming takes from the stock what the grant still has. */
  lemma {:induction false} StockIncrement(grants: seq<Grant>, id: nat, n: nat, key: Key)
    requires id < |grants|
    ensures Stock(Increment(grants, id, n), key)
         == Stock(grants, key) - if FromStock(grants[id], key) then Min(n, grants[id].Balance()) else 0
  {
    var after := Increment(grants, id, n);
    if id == |grants| - 1 {
      assert after[..|grants| - 1] == grants[..|grants| - 1];
    } else {
      assert after[..|grants| - 1] == Increment(grants[..|grants| - 1], id, n);
      StockIncrement(grants[..|grants| - 1], id, n, key);
    }
  }

  /** What settling consumes comes out of the stock of the key and of no other. */
  lemma {:induction false} SettleTakesStock(grants: seq<Grant>, rows: seq<Row>, need: nat, key: Key, k: Key)
    requires Current(rows, grants) && forall r :: r in rows ==> FromStock(r.grant, key)
    ensures InTable(rows, grants)
    ensures var (after, missing) := Settle(grants, rows, need);
            Stock(after, k) == Stock(grants, k) - if k == key then need - missing else 0
    decreases |rows|
  {
    if rows != [] && need != 0 {
      var n := Min(rows[0].grant.Balance(), need);
      assert rows[0] in rows;
      CurrentAfter(rows, grants, n);
      StockIncrement(grants, rows[0].id, n, k);
      SettleTakesStock(Increment(grants, rows[0].id, n), rows[1..], need - n, key, k);
    }
  }

  // ---- One usage report ----

  lemma UsedSnoc(events: seq<Event>, e: Event, key: Key, period: Period)
    ensures Used(events + [e], key, period)
            == Used(events, key, period) + if e.key == key && period.Contains(e.occurredAt) then 1 else 0
  {
  }

  ghost predicate OncePerKey(events: seq<Event>) {
    forall i, j :: 0 <= i < j < |events| ==> events[i].uniqueKey != events[j].uniqueKey
  }

  /** No event becomes a duplicate, and no grant becomes overdrawn. */
  ghost predicate KeepsSound(before: Ledger, after: Ledger) {
    && (OncePerKey(before.events) ==> OncePerKey(after.events))
    && (ValidGrants(before.grants) ==> ValidGrants(after.grants))
  }

  /** What is consumed from grants is exactly the usage beyond the plan, and it leaves the stock. */
  ghost predicate Balanced(before: Ledger, after: Ledger, k: Key, period: Period, included: nat) {
    var overflow := Overflow(Used(after.events, k, period), included)
                    - Overflow(Used(before.events, k, period), included);
    && Consumed(after.grants, k) == Consumed(before.grants, k) + overflow
    && Stock(after.grants, k) == Stock(before.grants, k) - overflow
  }

  /** A counted transaction adds one event and takes from the stock of its key what the usage it had
      read calls for; any other transaction changes nothing. */
  lemma CommitTakes(l: Ledger, u: Usage, used: nat, k: Key)
    requires u.period.Contains(u.now)
    ensures var (after, outcome) := Commit(l, u, used);
            var n: nat := if outcome.Counted? && k == u.key then NextOverflow(used, u.included) else 0;
            && KeepsSound(l, after) && (outcome.Counted? || after == l)
            && Consumed(after.grants, k) == Consumed(l.grants, k) + n
            && Stock(after.grants, k) == Stock(l.grants, k) - n
            && Used(after.events, k, u.period)
               == Used(l.events, k, u.period) + if outcome.Counted? && k == u.key then 1 else 0
  {
    hide Consumed, Stock, Settle, ConsumptionOrder, Used;
    var order := ConsumptionOrder(l.grants, u.key, u.now);
    var need := NextOverflow(used, u.included);
    OrderIsSorted(l.grants, u.key, u.now);
    SettleConserves(l.grants, order, need, u.key);
    SettleTakesStock(l.grants, order, need, u.key, k);
    UsedSnoc(l.events, Event(u.key, u.uniqueKey, u.now), k, u.period);
  }

  lemma RecordBalances(l: Ledger, u: Usage, k: Key, included: nat)
    requires u.period.Contains(u.now) && (k == u.key ==> included == u.included)
    ensures KeepsSound(l, Record(l, u).0) && Balanced(l, Record(l, u).0, k, u.period, included)
  {
    hide Consumed, Stock, Commit, Used;
    CommitTakes(l, u, Used(l.events, u.key, u.period), k);
  }

  lemma EarlierUsedUp(l: Ledger, u: Usage, i: nat, j: nat)
    requires Record(l, u).1.Counted? && i < |l.grants| && j < |l.grants|
    ensures |Record(l, u).0.grants| == |l.grants|
    ensures Record(l, u).0.grants[j] != l.grants[j] ==> l.grants[j].Eligible(u.key, u.now)
    ensures l.grants[i].Eligible(u.key, u.now) && Earlier(l.grants[i], l.grants[j])
            && Record(l, u).0.grants[j] != l.grants[j]
            ==> Record(l, u).0.grants[i].Balance() == 0
  {
    var order := ConsumptionOrder(l.grants, u.key, u.now);
    var need := NextOverflow(Used(l.events, u.key, u.period), u.included);
    OrderIsSorted(l.grants, u.key, u.now);
    hide ConsumptionOrder;
    hide Settle;
    if Record(l, u).0.grants[j] != l.grants[j] {
      if forall q :: 0 <= q < |order| ==> order[q].id != j {
        SettleLeaves(l.grants, order, need, j);
        assert false;
      }
      var q :| 0 <= q < |order| && order[q].id == j;
      assert order[q] in order;
      if l.grants[i].Eligible(u.key, u.now) && Earlier(l.grants[i], l.grants[j]) {
        assert Row(i, l.grants[i]) in order;
        var p :| 0 <= p < |order| && order[p] == Row(i, l.grants[i]);
        assert EarlierRow()(order[p], order[q]);
        assert p != q;
        SettleInOrder(l.grants, order, need, p, q);
      }
    }
  }

  /** A report that counts takes from a grant only if it is an unexpired add-on or manual grant of the key. Before
      one that expires, every such grant that expires earlier is used up; before one that never does, every such
      grant that expires, and every older one. */
  lemma EarlierExpiryFirst(l: Ledger, u: Usage, i: nat, j: nat)
    requires Record(l, u).1.Counted? && i < |l.grants| && j < |l.grants|
    ensures |Record(l, u).0.grants| == |l.grants|
    ensures Record(l, u).0.grants[j] != l.grants[j] ==> MayPay(l.grants[j], u.key, u.now)
    ensures Record(l, u).0.grants[j] != l.grants[j] && MayPay(l.grants[i], u.key, u.now)
            && (|| (l.grants[i].expiresAt.Some? && l.grants[j].expiresAt.Some?
                    && l.grants[i].expiresAt.value < l.grants[j].expiresAt.value)
                || (l.grants[i].expiresAt.Some? && l.grants[j].expiresAt.None?)
                || (l.grants[i].expiresAt.None? && l.grants[j].expiresAt.None?
                    && l.grants[i].createdAt < l.grants[j].createdAt))
            ==> Record(l, u).0.grants[i].consumed >= Record(l, u).0.grants[i].quantity
  {
    hide Record;
    EarlierUsedUp(l, u, i, j);
  }

  // ---- Any sequence of reports ----

  function RecordAll(l: Ledger, reports: seq<Usage>): Ledger
    decreases |reports|
  {
    if reports == [] then l else RecordAll(Record(l, reports[0]).0, reports[1..])
  }

  /** All reports fall in one billing period and see the same plan allowances. */
  ghost predicate SamePeriod(reports: seq<Usage>, period: Period, included: Key -> nat) {
    forall i :: 0 <= i < |reports| ==>
      reports[i].period == period && period.Contains(reports[i].now) && reports[i].included == included(reports[i].key)
  }

  /** Conservation over a billing period: along any sequence of usage reports, duplicates and refusals
      included, every unit of usage beyond the plan is matched by one unit consumed from a grant and
      missing from the stock; so usage never exceeds allowance plus stock, and nothing is counted twice. */
  lemma {:induction false} PeriodBalances(l: Ledger, reports: seq<Usage>, period: Period, included: Key -> nat, k: Key)
    requires SamePeriod(reports, period, included)
    ensures KeepsSound(l, RecordAll(l, reports))
    ensures Balanced(l, RecordAll(l, reports), k, period, included(k))
    ensures var before, after := Used(l.events, k, period), Used(RecordAll(l, reports).events, k, period);
            after <= (if before <= included(k) then included(k) else before) + Stock(l.grants, k)
    decreases |reports|
  {
    hide Record;
    hide Consumed;
    hide Stock;
    hide Used;
    hide OncePerKey;
    hide ValidGrants;
    if reports != [] {
      RecordBalances(l, reports[0], k, included(k));
      PeriodBalances(Record(l, reports[0]).0, reports[1..], period, included, k);
    }
  }

  // ---- The check before usage ----

  function Total(grants: seq<Grant>, key: Key, now: int, plan: bool): nat {
    if grants == [] then 0
    else
      var g := grants[|grants| - 1];
      Total(grants[..|grants| - 1], key, now, plan)
      + if g.key == key && g.Unexpired(now) && g.source.PlanGrant? == plan then g.Balance() else 0
  }

  /** `addOnTotals`: every unexpired grant of the key counts, whatever its source. */
  function AddOnTotal(grants: seq<Grant>, key: Key, now: int): nat {
    Total(grants, key, now, true) + Total(grants, key, now, false)
  }

  /** `quotaLimitForDisplay` and the test of `assertQuota` for one unit. The check takes its allowance from the
      plan snapshot of the account, recording takes `u.included` from the subscription. */
  function Limit(used: nat, snapshot: nat, addOns: nat): nat {
    used + (if snapshot >= used then snapshot - used else 0) + addOns
  }

  predicate QuotaCheck(l: Ledger, u: Usage, snapshot: nat) {
    var used := Used(l.events, u.key, u.period);
    u.allowed && used + 1 <= Limit(used, snapshot, AddOnTotal(l.grants, u.key, u.now))
  }

  lemma {:induction false} AvailableConcat(a: seq<Row>, b: seq<Row>)
    ensures Available(a + b) == Available(a) + Available(b)
  {
    if a == [] {
      assert a + b == b;
    } else {
      assert (a + b)[1..] == a[1..] + b;
      AvailableConcat(a[1..], b);
    }
  }

  lemma {:induction false} AvailableInsert(sorted: seq<Row>, r: Row)
    ensures Available(Insert(sorted, r, EarlierRow())) == Available(sorted) + r.grant.Balance()
  {
    if sorted != [] && !EarlierRow()(r, sorted[0]) {
      AvailableInsert(sorted[1..], r);
      assert ([sorted[0]] + Insert(sorted[1..], r, EarlierRow()))[1..] == Insert(sorted[1..], r, EarlierRow());
    } else {
      assert ([r] + sorted)[1..] == sorted;
    }
  }

  lemma {:induction false} AvailableSort(rows: seq<Row>)
    ensures Available(Sort(rows, EarlierRow())) == Available(rows)
  {
    if rows != [] {
      var front, last := rows[..|rows| - 1], rows[|rows| - 1];
      AvailableSort(front);
      AvailableInsert(Sort(front, EarlierRow()), last);
      AvailableConcat(front, [last]);
      assert rows == front + [last] && [last][1..] == [];
    }
  }

  lemma {:induction false} AvailableEligible(grants: seq<Grant>, key: Key, now: int, n: nat)
    requires n <= |grants|
    ensures Available(EligibleRows(grants, key, now, n)) == Total(grants[..n], key, now, false)
  {
    if n > 0 {
      AvailableEligible(grants, key, now, n - 1);
      assert grants[..n][..n - 1] == grants[..n - 1];
      var row := Row(n - 1, grants[n - 1]);
      AvailableConcat(EligibleRows(grants, key, now, n - 1), [row]);
      AvailableConcat(EligibleRows(grants, key, now, n - 1), []);
      assert [row][1..] == [];
    }
  }

  lemma SettlesFromStock(l: Ledger, u: Usage, used: nat)
    ensures InTable(ConsumptionOrder(l.grants, u.key, u.now), l.grants)
    ensures Settle(l.grants, ConsumptionOrder(l.grants, u.key, u.now), NextOverflow(used, u.included)).1 == 0
            <==> used < u.included || Total(l.grants, u.key, u.now, false) >= 1
  {
    hide Settle;
    var order := ConsumptionOrder(l.grants, u.key, u.now);
    OrderIsSorted(l.grants, u.key, u.now);
    SettleConserves(l.grants, order, NextOverflow(used, u.included), u.key);
    AvailableSort(EligibleRows(l.grants, u.key, u.now, |l.grants|));
    AvailableEligible(l.grants, u.key, u.now, |l.grants|);
    assert l.grants[..|l.grants|] == l.grants;
  }

  /** Some unexpired grant of the key has a unit left: one that comes with the plan, or an add-on or manual one. */
  ghost predicate HasUnit(grants: seq<Grant>, key: Key, now: int, plan: bool) {
    exists i :: && 0 <= i < |grants| && grants[i].key == key && grants[i].source.PlanGrant? == plan
                && (grants[i].expiresAt.None? || grants[i].expiresAt.value >= now)
                && grants[i].consumed < grants[i].quantity
  }

  lemma HasUnitSnoc(grants: seq<Grant>, g: Grant, key: Key, now: int, plan: bool)
    ensures HasUnit(grants + [g], key, now, plan)
            <==> HasUnit(grants, key, now, plan) || HasUnit([g], key, now, plan)
  {
    var all := grants + [g];
    assert all[|grants|] == g && forall i :: 0 <= i < |grants| ==> all[i] == grants[i];
    if HasUnit([g], key, now, plan) {
      assert all[|grants|] == [g][0];
    }
  }

  lemma {:induction false} TotalIsUnits(grants: seq<Grant>, key: Key, now: int, plan: bool)
    ensures Total(grants, key, now, plan) >= 1 <==> HasUnit(grants, key, now, plan)
  {
    if grants != [] {
      var front, last := grants[..|grants| - 1], grants[|grants| - 1];
      TotalIsUnits(front, key, now, plan);
      assert grants == front + [last];
      HasUnitSnoc(front, last, key, now, plan);
      OneUnit(last, key, now, plan);
    }
  }

  lemma OneUnit(g: Grant, key: Key, now: int, plan: bool)
    ensures HasUnit([g], key, now, plan)
            <==> g.key == key && g.Unexpired(now) && g.source.PlanGrant? == plan && g.Balance() > 0
  {
    if g.key == key && g.Unexpired(now) && g.source.PlanGrant? == plan && g.Balance() > 0 {
      assert [g][0] == g;
    }
  }

  /** The events of the key within the period. */
  ghost function UsedEvents(events: seq<Event>, key: Key, period: Period): set<int> {
    set i | 0 <= i < |events| && events[i].key == key && period.start <= events[i].occurredAt < period.end
  }

  lemma UsedEventsSnoc(events: seq<Event>, e: Event, key: Key, period: Period)
    ensures UsedEvents(events + [e], key, period)
            == UsedEvents(events, key, period)
               + if e.key == key && period.start <= e.occurredAt < period.end then {|events|} else {}
  {
    var all := events + [e];
    assert all[|events|] == e && forall i :: 0 <= i < |events| ==> all[i] == events[i];
  }

  lemma {:induction false} UsedIsNumber(events: seq<Event>, key: Key, period: Period)
    ensures Used(events, key, period) == |UsedEvents(events, key, period)|
  {
    if events != [] {
      var front, last := events[..|events| - 1], events[|events| - 1];
      assert events == front + [last];
      UsedIsNumber(front, key, period);
      UsedEventsSnoc(front, last, key, period);
    }
  }

  /** A known unique key. */
  ghost predicate IsKnown(events: seq<Event>, uniqueKey: string) {
    exists e :: e in events && e.uniqueKey == uniqueKey
  }

  lemma KnownIsRecorded(events: seq<Event>, uniqueKey: string)
    ensures IsKnown(events, uniqueKey) <==> Recorded(events, uniqueKey)
  {
    if Recorded(events, uniqueKey) {
      var i :| 0 <= i < |events| && events[i].uniqueKey == uniqueKey;
      assert events[i] in events;
    }
  }

  /** How a report ends. Without access it is refused; a known unique key counts nothing again; a new one counts
      exactly when the plan allowance is not used up or an unexpired add-on or manual grant has a unit left, and then
      it adds one event. Nothing else changes the ledger. */
  lemma CountedExactly(l: Ledger, u: Usage)
    ensures var (after, outcome) := Record(l, u);
            && (outcome.NoAccess? <==> !u.allowed)
            && (outcome.AlreadyCounted? <==> u.allowed && IsKnown(l.events, u.uniqueKey))
            && (outcome.Counted? <==>
                  && u.allowed && !IsKnown(l.events, u.uniqueKey)
                  && (|UsedEvents(l.events, u.key, u.period)| < u.included || HasUnit(l.grants, u.key, u.now, false)))
            && (outcome.Counted? ==> after.events == l.events + [Event(u.key, u.uniqueKey, u.now)])
            && (!outcome.Counted? ==> after == l)
  {
    hide Settle, Used, ConsumptionOrder, HasUnit, UsedEvents, Total, IsKnown, Recorded;
    UsedIsNumber(l.events, u.key, u.period);
    KnownIsRecorded(l.events, u.uniqueKey);
    TotalIsUnits(l.grants, u.key, u.now, false);
    SettlesFromStock(l, u, Used(l.events, u.key, u.period));
  }

  /** The first unit taken comes from the first row that has one. */
  lemma {:induction false} SettleOne(grants: seq<Grant>, rows: seq<Row>) returns (p: nat)
    requires Current(rows, grants)
    ensures p <= |rows| && InTable(rows, grants)
    ensures forall k :: 0 <= k < p ==> rows[k].grant.consumed >= rows[k].grant.quantity
    ensures p == |rows| ==> Settle(grants, rows, 1) == (grants, 1)
    ensures p < |rows| ==> rows[p].grant.consumed < rows[p].grant.quantity
                           && Settle(grants, rows, 1) == (Increment(grants, rows[p].id, 1), 0)
    decreases |rows|
  {
    p := 0;
    if rows != [] && rows[0].grant.Balance() == 0 {
      SettleNothing(grants, rows, 1);
      var rest := SettleOne(grants, rows[1..]);
      p := rest + 1;
      assert forall k :: 0 < k < |rows| ==> rows[k] == rows[1..][k - 1];
    }
  }

  /** A grant that pays before another one: by expiry, those without expiry last and by age, then by creation. */
  predicate PaysBefore(x: Grant, i: nat, y: Grant, j: nat) {
    if x.expiresAt.Some? && y.expiresAt.Some? then
      x.expiresAt.value < y.expiresAt.value || (x.expiresAt.value == y.expiresAt.value && i < j)
    else if x.expiresAt.None? && y.expiresAt.None? then
      x.createdAt < y.createdAt || (x.createdAt == y.createdAt && i < j)
    else x.expiresAt.Some?
  }

  /** Exactly what a counted report consumes: nothing within the plan; beyond it one unit of the first grant, in that
      order, of those that may pay and have one left. */
  lemma ReportTakesOneUnit(l: Ledger, u: Usage) returns (j: nat)
    requires Record(l, u).1.Counted?
    ensures |UsedEvents(l.events, u.key, u.period)| < u.included ==> Record(l, u).0.grants == l.grants
    ensures |UsedEvents(l.events, u.key, u.period)| >= u.included ==>
              && j < |l.grants| && MayPay(l.grants[j], u.key, u.now) && l.grants[j].consumed < l.grants[j].quantity
              && (forall i | 0 <= i < |l.grants| && i != j && MayPay(l.grants[i], u.key, u.now)
                             && l.grants[i].consumed < l.grants[i].quantity ::
                    PaysBefore(l.grants[j], j, l.grants[i], i))
              && Record(l, u).0.grants == l.grants[j := l.grants[j].(consumed := l.grants[j].consumed + 1)]
  {
    hide Settle, Used, ConsumptionOrder, UsedEvents, Recorded;
    UsedIsNumber(l.events, u.key, u.period);
    OrderIsSorted(l.grants, u.key, u.now);
    var order := ConsumptionOrder(l.grants, u.key, u.now);
    var p := SettleOne(l.grants, order);
    SettleNone(l.grants, order);
    j := 0;
    if Used(l.events, u.key, u.period) >= u.included {
      j := order[p].id;
      assert order[p] in order;
      forall i | 0 <= i < |l.grants| && i != j && MayPay(l.grants[i], u.key, u.now)
                 && l.grants[i].consumed < l.grants[i].quantity
        ensures PaysBefore(l.grants[j], j, l.grants[i], i)
      {
        assert Row(i, l.grants[i]) in order;
        var q :| 0 <= q < |order| && order[q] == Row(i, l.grants[i]);
        OrderPays(l.grants, u.key, u.now, p, q);
      }
    }
  }

  lemma OrderPays(grants: seq<Grant>, key: Key, now: int, p: nat, q: nat)
    requires p < q < |ConsumptionOrder(grants, key, now)|
    ensures var order := ConsumptionOrder(grants, key, now);
            PaysBefore(order[p].grant, order[p].id, order[q].grant, order[q].id)
  {
    hide ConsumptionOrder;
    OrderIsEligible(grants, key, now, p, q);
  }

  lemma PassesByTotals(l: Ledger, u: Usage, snapshot: nat)
    requires u.allowed
    ensures var used := Used(l.events, u.key, u.period);
            QuotaCheck(l, u, snapshot)
            <==> || used < snapshot || Total(l.grants, u.key, u.now, true) >= 1
                 || Total(l.grants, u.key, u.now, false) >= 1
  {
    hide Total, Used;
  }

  /** The check passes and recording then refuses exactly when no add-on or manual grant has a unit left, the
      subscription's allowance is used up, and the snapshot's is not or a plan-sourced grant has a unit. It
      refuses what recording would count exactly when no grant has a unit left and only the subscription's
      allowance has room. */
  lemma CheckMatchesRecord(l: Ledger, u: Usage, snapshot: nat)
    requires u.allowed && !IsKnown(l.events, u.uniqueKey)
    ensures var used := |UsedEvents(l.events, u.key, u.period)|;
            var addOn, plan := HasUnit(l.grants, u.key, u.now, false), HasUnit(l.grants, u.key, u.now, true);
            var passes, counts := QuotaCheck(l, u, snapshot), Record(l, u).1.Counted?;
            && (passes && !counts <==> !addOn && used >= u.included && (used < snapshot || plan))
            && (!passes && counts <==> !addOn && !plan && snapshot <= used < u.included)
  {
    hide Record, QuotaCheck, Total, Used, HasUnit, UsedEvents, IsKnown;
    CountedExactly(l, u);
    UsedIsNumber(l.events, u.key, u.period);
    PassesByTotals(l, u, snapshot);
    TotalIsUnits(l.grants, u.key, u.now, false);
    TotalIsUnits(l.grants, u.key, u.now, true);
  }

  /** So where the two allowances are equal and no plan-sourced grant is stored, check and recording agree. */
  lemma CheckAgrees(l: Ledger, u: Usage)
    requires u.allowed && !IsKnown(l.events, u.uniqueKey)
    requires forall i :: 0 <= i < |l.grants| ==> !l.grants[i].source.PlanGrant?
    ensures QuotaCheck(l, u, u.included) <==> Record(l, u).1.Counted?
  {
    hide Record, UsedEvents, QuotaCheck, IsKnown;
    CheckMatchesRecord(l, u, u.included);
  }

  /** A snapshot that still allows one unit more than the subscription, and no grants: the check passes and
      recording refuses. */
  lemma CheckPassesRecordingRefuses()
    ensures var l, u := Ledger([], []), Usage(P.AiInterviews, "a", 0, Period(0, 1), 0, true);
            QuotaCheck(l, u, 1) && Record(l, u).1.NoBalance?
  {
    var l, u := Ledger([], []), Usage(P.AiInterviews, "a", 0, Period(0, 1), 0, true);
    CheckMatchesRecord(l, u, 1);
  }

  // ---- In place ----

  class UsageMeter {
    var grants: seq<Grant>
    var events: seq<Event>

    ghost function Now(): Ledger
      reads this
    {
      Ledger(grants, events)
    }

    /** `consumeAddOnGrantBalance`: grants are updated one by one; `false` stands for the exception, after
        which the surrounding transaction is rolled back. */
    method ConsumeAddOnGrantBalance(key: Key, quantity: nat, now: int) returns (ok: bool)
      requires quantity > 0
      modifies `grants
      ensures InTable(ConsumptionOrder(old(grants), key, now), old(grants))
      ensures grants == Settle(old(grants), ConsumptionOrder(old(grants), key, now), quantity).0
      ensures ok <==> Settle(old(grants), ConsumptionOrder(old(grants), key, now), quantity).1 == 0
    {
      hide Sort;
      OrderInTable(grants, key, now);
      var rows := Sort(EligibleRows(grants, key, now, |grants|), EarlierRow());
      ghost var before := grants;
      var remaining := quantity;
      for i := 0 to |rows|
        invariant |grants| == |before| && remaining > 0
        invariant InTable(rows[i..], grants)
        invariant Settle(grants, rows[i..], remaining) == Settle(before, rows, quantity)
      {
        var balance := rows[i].grant.Balance();
        assert rows[i..][1..] == rows[i + 1..];
        if balance == 0 {
          SettleNothing(grants, rows[i..], remaining);
          continue;
        }
        var consumeNow := Min(balance, remaining);
        grants := Increment(grants, rows[i].id, consumeNow);
        remaining := remaining - consumeNow;
        if remaining == 0 {
          return true;
        }
      }
      return false;
    }

    /** The transaction of `recordUsageEvent`: the event and the consumption stand or fall together. */
    method CommitUsage(u: Usage, used: nat) returns (outcome: Outcome)
      modifies this
      ensures (Now(), outcome) == Commit(old(Now()), u, used)
    {
      hide Settle, ConsumptionOrder;
      if Recorded(events, u.uniqueKey) {
        return AlreadyCounted;
      }
      var grantsBefore, eventsBefore := grants, events;
      var delta := NextOverflow(used, u.included);
      OrderInTable(grants, u.key, u.now);
      events := events + [Event(u.key, u.uniqueKey, u.now)];
      if delta > 0 {
        var ok := ConsumeAddOnGrantBalance(u.key, delta, u.now);
        if !ok {
          grants, events := grantsBefore, eventsBefore;
          return NoBalance;
        }
      } else {
        SettleNone(grants, ConsumptionOrder(grants, u.key, u.now));
      }
      return Counted;
    }

    /** `recordUsageEvent` with nothing else going on. */
    method RecordUsage(u: Usage) returns (outcome: Outcome)
      modifies this
      ensures (Now(), outcome) == Record(old(Now()), u)
    {
      if !u.allowed {
        return NoAccess;
      }
      outcome := CommitUsage(u, Used(events, u.key, u.period));
    }
  }

  lemma SettleNothing(grants: seq<Grant>, rows: seq<Row>, need: nat)
    requires InTable(rows, grants) && rows != [] && rows[0].grant.Balance() == 0
    ensures Settle(grants, rows, need) == Settle(grants, rows[1..], need)
  {
    assert Increment(grants, rows[0].id, 0) == grants;
  }

  lemma SettleNone(grants: seq<Grant>, rows: seq<Row>)
    requires InTable(rows, grants)
    ensures Settle(grants, rows, 0) == (grants, 0)
  {
  }
}
