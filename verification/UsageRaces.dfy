/** Usage reports that overlap. `recordUsageEvent` of apps/api/src/modules/billing/billing.service.ts reads the
    usage so far before its transaction begins, and the transaction reads the grants before it increments them.
    No isolation level or lock is asked for, so a transaction sees what was committed when it reads (PostgreSQL,
    Read Committed): another report may be counted, or may consume, after either reading. */
module UsageRaces {
  import opened Options
  import opened StableSort
  import opened UsageLedger
  import P = Provisioning

  /** A report under way: it has read the usage so far, or has also stored its event and read the grants. */
  datatype Report = Reading(usage: Usage, used: nat) | Begun(usage: Usage, used: nat, seen: seq<Grant>) {
    function Need(): nat {
      NextOverflow(used, usage.included)
    }
  }

  datatype Meter = Meter(ledger: Ledger, reports: map<nat, Report>)

  /** `Begin` is the insert of the event together with the reading of the grants, which only other commits can
      influence; `Take` is the increments together with the commit, since increments of other transactions
      wait for the row locks and add up. */
  datatype Step = Read(id: nat, usage: Usage) | Begin(id: nat) | Take(id: nat)

  /** An event with the same unique key is stored but not yet committed, so an insert has to wait. */
  predicate KeyInFlight(m: Meter, uniqueKey: string) {
    exists id :: id in m.reports && m.reports[id].Begun? && m.reports[id].usage.uniqueKey == uniqueKey
  }

  function BeginReport(m: Meter, id: nat): Meter
    requires id in m.reports && m.reports[id].Reading?
  {
    var r := m.reports[id];
    if Recorded(m.ledger.events, r.usage.uniqueKey) then m.(reports := m.reports - {id})
    else if KeyInFlight(m, r.usage.uniqueKey) then m
    else m.(reports := m.reports[id := Begun(r.usage, r.used, m.ledger.grants)])
  }

  /** The rows a report consumes, in order, as it saw them. */
  function Rows(r: Report): seq<Row>
    requires r.Begun?
  {
    ConsumptionOrder(r.seen, r.usage.key, r.usage.now)
  }

  /** The grants read earlier decide how much is taken from each; it is added to what is consumed by now. */
  function TakeAndCommit(l: Ledger, r: Report): (Ledger, Outcome)
    requires r.Begun? && |r.seen| == |l.grants|
  {
    OrderInTable(r.seen, r.usage.key, r.usage.now);
    var (grants, missing) := Settle(l.grants, Rows(r), r.Need());
    if missing > 0 then (l, NoBalance)
    else (Ledger(grants, l.events + [Event(r.usage.key, r.usage.uniqueKey, r.usage.now)]), Counted)
  }

  function Next(m: Meter, step: Step): Meter {
    match step
    case Read(id, u) =>
      if u.allowed && id !in m.reports then
        m.(reports := m.reports[id := Reading(u, Used(m.ledger.events, u.key, u.period))])
      else m
    case Begin(id) => if id in m.reports && m.reports[id].Reading? then BeginReport(m, id) else m
    case Take(id) =>
      if Takes(m, step) then Meter(TakeAndCommit(m.ledger, m.reports[id]).0, m.reports - {id}) else m
  }

  predicate Takes(m: Meter, step: Step) {
    step.Take? && step.id in m.reports && m.reports[step.id].Begun?
    && |m.reports[step.id].seen| == |m.ledger.grants|
  }

  function Run(m: Meter, steps: seq<Step>): Meter
    decreases |steps|
  {
    if steps == [] then m else Run(Next(m, steps[0]), steps[1..])
  }

  /** A transaction that nothing else overlaps is the one of the ledger. */
  lemma TakeAloneIsCommit(l: Ledger, u: Usage, used: nat)
    requires !Recorded(l.events, u.uniqueKey)
    ensures TakeAndCommit(l, Begun(u, used, l.grants)) == Commit(l, u, used)
  {
    hide Settle, ConsumptionOrder;
    OrderInTable(l.grants, u.key, u.now);
  }

  lemma RunThree(m: Meter, a: Step, b: Step, c: Step)
    ensures Run(m, [a, b, c]) == Next(Next(Next(m, a), b), c)
  {
    hide Next;
    assert [a, b, c][1..] == [b, c] && [b, c][1..] == [c] && [c][1..] == [];
    assert Run(Next(m, a), [b, c]) == Run(Next(Next(m, a), b), [c]);
  }

  /** From its reading on, a report that nothing overlaps is one of the ledger. */
  lemma AloneIsRecord(m: Meter, id: nat, u: Usage)
    requires u.allowed && id !in m.reports && !KeyInFlight(m, u.uniqueKey)
    ensures Run(m, [Read(id, u), Begin(id), Take(id)]) == Meter(Record(m.ledger, u).0, m.reports)
  {
    hide TakeAndCommit, Commit, Used, Recorded, Run;
    RunThree(m, Read(id, u), Begin(id), Take(id));
    var used := Used(m.ledger.events, u.key, u.period);
    var read := Next(m, Read(id, u));
    assert read == m.(reports := m.reports[id := Reading(u, used)]) && read.reports - {id} == m.reports;
    var begun := Next(read, Begin(id));
    if Recorded(m.ledger.events, u.uniqueKey) {
      assert begun == m && Next(begun, Take(id)) == m;
      KnownIsKept(m.ledger, u, used);
    } else {
      assert begun == m.(reports := m.reports[id := Begun(u, used, m.ledger.grants)]);
      TakeAloneIsCommit(m.ledger, u, used);
      assert Takes(begun, Take(id)) && begun.reports - {id} == m.reports;
    }
  }

  lemma KnownIsKept(l: Ledger, u: Usage, used: nat)
    requires Recorded(l.events, u.uniqueKey)
    ensures Commit(l, u, used).0 == l
  {
  }

  // ---- The two ways in which the account can slip ----

  /** The report's usage reading still saw room in the plan although by now the plan is used up. */
  predicate StaleUsage(m: Meter, step: Step, k: Key) {
    Takes(m, step) &&
      var r := m.reports[step.id];
      r.usage.key == k && r.used < r.usage.included <= Used(m.ledger.events, k, r.usage.period)
  }

  /** What settling takes from grants beyond their present balance. */
  function Excess(grants: seq<Grant>, rows: seq<Row>, need: nat): nat
    requires InTable(rows, grants)
    decreases |rows|
  {
    if rows == [] || need == 0 then 0
    else
      var n := Min(rows[0].grant.Balance(), need);
      n - Min(n, grants[rows[0].id].Balance()) + Excess(Increment(grants, rows[0].id, n), rows[1..], need - n)
  }

  /** The units a step takes that the grants no longer have, because they were consumed after it read them. */
  function Oversold(m: Meter, step: Step, k: Key): nat {
    if !Takes(m, step) then 0
    else
      var r := m.reports[step.id];
      OrderInTable(r.seen, r.usage.key, r.usage.now);
      if r.usage.key == k && r.Need() <= Available(Rows(r)) then Excess(m.ledger.grants, Rows(r), r.Need()) else 0
  }

  function Unpaid(m: Meter, steps: seq<Step>, k: Key): nat
    decreases |steps|
  {
    if steps == [] then 0
    else (if StaleUsage(m, steps[0], k) then 1 else 0) + Unpaid(Next(m, steps[0]), steps[1..], k)
  }

  function OversoldUnits(m: Meter, steps: seq<Step>, k: Key): nat
    decreases |steps|
  {
    if steps == [] then 0 else Oversold(m, steps[0], k) + OversoldUnits(Next(m, steps[0]), steps[1..], k)
  }

  /** Units consumed beyond the quantity of a key's add-on and manual grants. */
  function Overdraft(grants: seq<Grant>, key: Key): nat {
    if grants == [] then 0
    else
      var g := grants[|grants| - 1];
      Overdraft(grants[..|grants| - 1], key)
      + if FromStock(g, key) && g.consumed > g.quantity then g.consumed - g.quantity else 0
  }

  ghost predicate WithinQuantity(grants: seq<Grant>, key: Key) {
    forall i :: 0 <= i < |grants| && FromStock(grants[i], key) ==> grants[i].Valid()
  }

  lemma {:induction false} NoOverdraft(grants: seq<Grant>, key: Key)
    ensures Overdraft(grants, key) == 0 <==> WithinQuantity(grants, key)
  {
    if grants != [] {
      var n := |grants| - 1;
      NoOverdraft(grants[..n], key);
      assert forall i :: 0 <= i < n ==> grants[..n][i] == grants[i];
    }
  }

  lemma {:induction false} OverdraftIncrement(grants: seq<Grant>, id: nat, n: nat, key: Key)
    requires id < |grants|
    ensures Overdraft(Increment(grants, id, n), key)
         == Overdraft(grants, key) + if FromStock(grants[id], key) then n - Min(n, grants[id].Balance()) else 0
  {
    var after := Increment(grants, id, n);
    if id == |grants| - 1 {
      assert after[..|grants| - 1] == grants[..|grants| - 1];
    } else {
      assert after[..|grants| - 1] == Increment(grants[..|grants| - 1], id, n);
      OverdraftIncrement(grants[..|grants| - 1], id, n, key);
    }
  }

  ghost predicate Drawable(rows: seq<Row>, grants: seq<Grant>, key: Key) {
    forall i :: 0 <= i < |rows| ==> rows[i].id < |grants| && FromStock(grants[rows[i].id], key)
  }

  /** The grants are the same but for what has been consumed, and that has only grown. */
  ghost predicate OnlyConsumed(before: seq<Grant>, after: seq<Grant>) {
    |before| == |after| && forall i :: 0 <= i < |before| ==>
      before[i] == after[i].(consumed := before[i].consumed) && before[i].consumed <= after[i].consumed
  }

  lemma DrawableAfter(rows: seq<Row>, grants: seq<Grant>, key: Key, n: nat)
    requires rows != [] && Drawable(rows, grants, key)
    ensures Drawable(rows[1..], Increment(grants, rows[0].id, n), key)
  {
    forall i | 0 <= i < |rows[1..]|
      ensures rows[1..][i].id < |grants| && FromStock(Increment(grants, rows[0].id, n)[rows[1..][i].id], key)
    {
      assert rows[1..][i] == rows[i + 1];
    }
  }

  /** Settling by rows read earlier consumes exactly what it planned; what the grants no longer had becomes
      overdraft instead of leaving the stock. */
  lemma {:induction false} SettleStale(grants: seq<Grant>, rows: seq<Row>, need: nat, key: Key, k: Key)
    requires Drawable(rows, grants, key)
    ensures InTable(rows, grants)
    ensures var (after, missing) := Settle(grants, rows, need);
            var taken := if k == key then need - missing else 0;
            var excess := if k == key then Excess(grants, rows, need) else 0;
            && missing == need - Min(Available(rows), need)
            && Consumed(after, k) == Consumed(grants, k) + taken
            && Stock(after, k) == Stock(grants, k) - taken + excess
            && Overdraft(after, k) == Overdraft(grants, k) + excess
            && OnlyConsumed(grants, after)
    decreases |rows|
  {
    hide Stock, Consumed, Overdraft;
    if rows != [] && need != 0 {
      var n := Min(rows[0].grant.Balance(), need);
      DrawableAfter(rows, grants, key, n);
      ConsumedIncrement(grants, rows[0].id, n, k);
      StockIncrement(grants, rows[0].id, n, k);
      OverdraftIncrement(grants, rows[0].id, n, k);
      SettleStale(Increment(grants, rows[0].id, n), rows[1..], need - n, key, k);
    }
  }

  /** Rows that are still current are never oversold. */
  lemma {:induction false} CurrentNotOversold(grants: seq<Grant>, rows: seq<Row>, need: nat)
    requires Current(rows, grants)
    ensures InTable(rows, grants) && Excess(grants, rows, need) == 0
    decreases |rows|
  {
    if rows != [] && need != 0 {
      var n := Min(rows[0].grant.Balance(), need);
      CurrentAfter(rows, grants, n);
      CurrentNotOversold(Increment(grants, rows[0].id, n), rows[1..], need - n);
    }
  }

  /** So a step oversells only when some grant was consumed from between its reading and its increments. */
  lemma OversoldWasConsumed(m: Meter, step: Step, k: Key)
    requires Takes(m, step) && m.reports[step.id].seen == m.ledger.grants
    ensures Oversold(m, step, k) == 0
  {
    hide Excess, ConsumptionOrder;
    var r := m.reports[step.id];
    OrderIsSorted(r.seen, r.usage.key, r.usage.now);
    CurrentNotOversold(m.ledger.grants, Rows(r), r.Need());
  }

  // ---- Any interleaving ----

  predicate InPeriod(u: Usage, period: Period, included: Key -> nat) {
    u.period == period && period.Contains(u.now) && u.included == included(u.key)
  }

  ghost predicate AllInPeriod(steps: seq<Step>, period: Period, included: Key -> nat) {
    forall i :: 0 <= i < |steps| && steps[i].Read? ==> InPeriod(steps[i].usage, period, included)
  }

  /** A report is never ahead of the ledger, and no event under way is a duplicate. */
  ghost predicate ValidReport(m: Meter, r: Report, period: Period, included: Key -> nat) {
    && InPeriod(r.usage, period, included) && r.used <= Used(m.ledger.events, r.usage.key, period)
    && (r.Begun? ==> OnlyConsumed(r.seen, m.ledger.grants) && !Recorded(m.ledger.events, r.usage.uniqueKey))
  }

  ghost predicate Valid(m: Meter, period: Period, included: Key -> nat) {
    && OncePerKey(m.ledger.events)
    && (forall id :: id in m.reports ==> ValidReport(m, m.reports[id], period, included))
    && (forall i, j :: i in m.reports && j in m.reports && i != j && m.reports[i].Begun? && m.reports[j].Begun? ==>
          m.reports[i].usage.uniqueKey != m.reports[j].usage.uniqueKey)
  }

  lemma RowsDrawable(r: Report, grants: seq<Grant>)
    requires r.Begun? && OnlyConsumed(r.seen, grants)
    ensures Drawable(Rows(r), grants, r.usage.key)
  {
    hide ConsumptionOrder;
    OrderIsSorted(r.seen, r.usage.key, r.usage.now);
    var rows := Rows(r);
    forall i | 0 <= i < |rows| ensures rows[i].id < |grants| && FromStock(grants[rows[i].id], r.usage.key) {
      assert rows[i] in rows;
    }
  }

  /** One transaction's effect on the account of a key. */
  lemma TakeEffect(m: Meter, step: Step, period: Period, included: Key -> nat, k: Key)
    requires Valid(m, period, included) && Takes(m, step)
    ensures var r := m.reports[step.id];
            var (after, outcome) := TakeAndCommit(m.ledger, r);
            var counts := outcome.Counted? && k == r.usage.key;
            var taken: nat := if counts then r.Need() else 0;
            && (outcome.Counted? ==>
                  after.events == m.ledger.events + [Event(r.usage.key, r.usage.uniqueKey, r.usage.now)])
            && (!outcome.Counted? ==> after == m.ledger)
            && (r.Need() == 0 ==> outcome.Counted?)
            && OnlyConsumed(m.ledger.grants, after.grants)
            && Used(after.events, k, period) == Used(m.ledger.events, k, period) + (if counts then 1 else 0)
            && Consumed(after.grants, k) == Consumed(m.ledger.grants, k) + taken
            && Stock(after.grants, k) == Stock(m.ledger.grants, k) - taken + Oversold(m, step, k)
            && Overdraft(after.grants, k) == Overdraft(m.ledger.grants, k) + Oversold(m, step, k)
  {
    hide Stock, Consumed, Overdraft, Settle, Excess, ConsumptionOrder, Used, Available, Recorded, OncePerKey;
    var r := m.reports[step.id];
    assert ValidReport(m, r, period, included);
    RowsDrawable(r, m.ledger.grants);
    SettleStale(m.ledger.grants, Rows(r), r.Need(), r.usage.key, k);
    UsedSnoc(m.ledger.events, Event(r.usage.key, r.usage.uniqueKey, r.usage.now), k, period);
  }

  lemma OnlyConsumedTrans(a: seq<Grant>, b: seq<Grant>, c: seq<Grant>)
    requires OnlyConsumed(a, b) && OnlyConsumed(b, c)
    ensures OnlyConsumed(a, c)
  {
  }

  lemma RecordedSnoc(events: seq<Event>, e: Event, uniqueKey: string)
    ensures Recorded(events + [e], uniqueKey) <==> Recorded(events, uniqueKey) || e.uniqueKey == uniqueKey
  {
    var all := events + [e];
    if Recorded(events, uniqueKey) {
      var i :| 0 <= i < |events| && events[i].uniqueKey == uniqueKey;
      assert all[i].uniqueKey == uniqueKey;
    }
    assert all[|events|] == e;
  }

  lemma OnceSnoc(events: seq<Event>, e: Event)
    requires OncePerKey(events) && !Recorded(events, e.uniqueKey)
    ensures OncePerKey(events + [e])
  {
  }

  lemma TakeKeepsValid(m: Meter, step: Step, period: Period, included: Key -> nat)
    requires Valid(m, period, included) && Takes(m, step)
    ensures Valid(Next(m, step), period, included)
  {
    hide TakeAndCommit, Used, Recorded, OncePerKey, OnlyConsumed;
    var next, r := Next(m, step), m.reports[step.id];
    var e := Event(r.usage.key, r.usage.uniqueKey, r.usage.now);
    assert ValidReport(m, r, period, included);
    TakeEffect(m, step, period, included, r.usage.key);
    if TakeAndCommit(m.ledger, r).1.Counted? {
      OnceSnoc(m.ledger.events, e);
    }
    forall id | id in next.reports ensures ValidReport(next, next.reports[id], period, included) {
      var other := m.reports[id];
      assert ValidReport(m, other, period, included);
      TakeEffect(m, step, period, included, other.usage.key);
      RecordedSnoc(m.ledger.events, e, other.usage.uniqueKey);
      if other.Begun? {
        OnlyConsumedTrans(other.seen, m.ledger.grants, next.ledger.grants);
      }
    }
  }

  lemma NextKeepsValid(m: Meter, step: Step, period: Period, included: Key -> nat)
    requires Valid(m, period, included) && (step.Read? ==> InPeriod(step.usage, period, included))
    ensures Valid(Next(m, step), period, included)
  {
    hide TakeAndCommit, Used, Recorded, OncePerKey;
    match step
    case Read(id, u) =>
      var next := Next(m, step);
      forall i | i in next.reports ensures ValidReport(next, next.reports[i], period, included) {
        assert i in m.reports ==> ValidReport(m, m.reports[i], period, included);
      }
    case Begin(id) =>
      var next := Next(m, step);
      forall i | i in next.reports ensures ValidReport(next, next.reports[i], period, included) {
        assert ValidReport(m, m.reports[i], period, included);
      }
    case Take(id) =>
      if Takes(m, step) {
        TakeKeepsValid(m, step, period, included);
      }
  }

  /** What one step takes from the grants, against the growth of the usage beyond the plan. */
  lemma NextBalances(m: Meter, step: Step, period: Period, included: Key -> nat, k: Key)
    requires Valid(m, period, included)
    ensures var before, after := m.ledger, Next(m, step).ledger;
            var unpaid: nat := if StaleUsage(m, step, k) then 1 else 0;
            && Consumed(after.grants, k) + unpaid + Overflow(Used(before.events, k, period), included(k))
               == Consumed(before.grants, k) + Overflow(Used(after.events, k, period), included(k))
            && Stock(after.grants, k) + Consumed(after.grants, k)
               == Stock(before.grants, k) + Consumed(before.grants, k) + Oversold(m, step, k)
            && Overdraft(after.grants, k) == Overdraft(before.grants, k) + Oversold(m, step, k)
  {
    hide TakeAndCommit, Used, Stock, Consumed, Overdraft, Excess, Available, Rows, Recorded, OnlyConsumed, OncePerKey;
    if Takes(m, step) {
      TakeEffect(m, step, period, included, k);
      assert ValidReport(m, m.reports[step.id], period, included);
    }
  }

  /** Overlapping reports, in any interleaving of readings, inserts and takes: the grants pay for the usage
      beyond the plan but for one unit for each stale usage reading; what is consumed leaves the stock but for
      the units oversold, which are exactly the overdraft; and no event is counted twice. */
  lemma {:induction false} InterleavedBalance(m: Meter, steps: seq<Step>, period: Period, included: Key -> nat, k: Key)
    requires Valid(m, period, included) && AllInPeriod(steps, period, included)
    ensures var before, after := m.ledger, Run(m, steps).ledger;
            && OncePerKey(after.events)
            && Consumed(after.grants, k) + Unpaid(m, steps, k) + Overflow(Used(before.events, k, period), included(k))
               == Consumed(before.grants, k) + Overflow(Used(after.events, k, period), included(k))
            && Stock(after.grants, k) + Consumed(after.grants, k)
               == Stock(before.grants, k) + Consumed(before.grants, k) + OversoldUnits(m, steps, k)
            && Overdraft(after.grants, k) == Overdraft(before.grants, k) + OversoldUnits(m, steps, k)
    decreases |steps|
  {
    hide Next, Used, Stock, Consumed, Overdraft, Oversold, StaleUsage, Overflow, OncePerKey, ValidReport;
    if steps != [] {
      NextKeepsValid(m, steps[0], period, included);
      NextBalances(m, steps[0], period, included, k);
      InterleavedBalance(Next(m, steps[0]), steps[1..], period, included, k);
    }
  }

  /** So the account of a period balances exactly when no report is unpaid and nothing is oversold. */
  lemma BalancedExactly(m: Meter, steps: seq<Step>, period: Period, included: Key -> nat, k: Key)
    requires Valid(m, period, included) && AllInPeriod(steps, period, included)
    ensures Balanced(m.ledger, Run(m, steps).ledger, k, period, included(k))
       <==> Unpaid(m, steps, k) == 0 && OversoldUnits(m, steps, k) == 0
  {
    hide Run, Used, Stock, Consumed, Overdraft, Overflow, Unpaid, OversoldUnits, Valid;
    InterleavedBalance(m, steps, period, included, k);
  }

  /** And the key's grants end within their quantities exactly when they began so and nothing is oversold. */
  lemma OverdrawnExactly(m: Meter, steps: seq<Step>, period: Period, included: Key -> nat, k: Key)
    requires Valid(m, period, included) && AllInPeriod(steps, period, included)
    ensures WithinQuantity(Run(m, steps).ledger.grants, k)
       <==> WithinQuantity(m.ledger.grants, k) && OversoldUnits(m, steps, k) == 0
  {
    hide Run, Used, Stock, Consumed, Overdraft, Overflow, Unpaid, OversoldUnits, Valid, WithinQuantity;
    InterleavedBalance(m, steps, period, included, k);
    NoOverdraft(m.ledger.grants, k);
    NoOverdraft(Run(m, steps).ledger.grants, k);
  }

  // ---- When nothing is oversold ----

  /** No other report of the key stands between its reading of the grants and its increments. */
  predicate Alone(m: Meter, step: Step, k: Key) {
    forall id :: id in m.reports && id != step.id && m.reports[id].Begun? ==> m.reports[id].usage.key != k
  }

  predicate TakesUnits(m: Meter, step: Step, k: Key) {
    Takes(m, step) && m.reports[step.id].usage.key == k && m.reports[step.id].Need() > 0
  }

  /** Whenever a report of the key takes units, it is alone. */
  ghost predicate TakesAlone(m: Meter, steps: seq<Step>, k: Key)
    decreases |steps|
  {
    steps == []
    || ((TakesUnits(m, steps[0], k) ==> Alone(m, steps[0], k)) && TakesAlone(Next(m, steps[0]), steps[1..], k))
  }

  ghost predicate SameStock(seen: seq<Grant>, grants: seq<Grant>, k: Key) {
    |seen| == |grants| && forall i :: 0 <= i < |grants| && FromStock(grants[i], k) ==> seen[i] == grants[i]
  }

  /** Every report of the key that has read the grants still sees the key's stock as it is. */
  ghost predicate SeesStock(m: Meter, k: Key) {
    forall id :: id in m.reports && m.reports[id].Begun? && m.reports[id].usage.key == k ==>
      SameStock(m.reports[id].seen, m.ledger.grants, k)
  }

  lemma SeenNotOversold(r: Report, grants: seq<Grant>)
    requires r.Begun? && OnlyConsumed(r.seen, grants) && SameStock(r.seen, grants, r.usage.key)
    ensures InTable(Rows(r), grants) && Excess(grants, Rows(r), r.Need()) == 0
  {
    hide ConsumptionOrder, Excess, OnlyConsumed;
    OrderIsSorted(r.seen, r.usage.key, r.usage.now);
    RowsDrawable(r, grants);
    CurrentNotOversold(grants, Rows(r), r.Need());
  }

  lemma {:induction false} SettleOtherStock(grants: seq<Grant>, rows: seq<Row>, need: nat, key: Key, k: Key)
    requires Drawable(rows, grants, key) && (k != key || need == 0)
    ensures InTable(rows, grants) && SameStock(grants, Settle(grants, rows, need).0, k)
    decreases |rows|
  {
    if rows != [] && need != 0 {
      var n := Min(rows[0].grant.Balance(), need);
      DrawableAfter(rows, grants, key, n);
      SettleOtherStock(Increment(grants, rows[0].id, n), rows[1..], need - n, key, k);
    }
  }

  lemma NextSeesStock(m: Meter, step: Step, period: Period, included: Key -> nat, k: Key)
    requires Valid(m, period, included) && SeesStock(m, k)
    requires TakesUnits(m, step, k) ==> Alone(m, step, k)
    ensures SeesStock(Next(m, step), k) && Oversold(m, step, k) == 0
  {
    hide Settle, Excess, Rows, OnlyConsumed, Used, Recorded, OncePerKey, Available;
    if Takes(m, step) {
      var r := m.reports[step.id];
      assert ValidReport(m, r, period, included);
      RowsDrawable(r, m.ledger.grants);
      if r.usage.key == k {
        SeenNotOversold(r, m.ledger.grants);
      }
      if r.usage.key != k || r.Need() == 0 {
        SettleOtherStock(m.ledger.grants, Rows(r), r.Need(), r.usage.key, k);
      }
    }
  }

  /** Nothing of a key is oversold along a run in which no take of the key falls between the reading of the grants
      and the increments of another of its reports. */
  lemma {:induction false} AloneNeverOversells(m: Meter, steps: seq<Step>, period: Period, included: Key -> nat, k: Key)
    requires Valid(m, period, included) && AllInPeriod(steps, period, included)
    requires SeesStock(m, k) && TakesAlone(m, steps, k)
    ensures OversoldUnits(m, steps, k) == 0
    decreases |steps|
  {
    hide Next, Oversold, ValidReport, SeesStock, Alone, TakesUnits, OncePerKey;
    if steps != [] {
      NextKeepsValid(m, steps[0], period, included);
      NextSeesStock(m, steps[0], period, included, k);
      AloneNeverOversells(Next(m, steps[0]), steps[1..], period, included, k);
    }
  }

  // ---- Both slips, concretely ----

  function Interview(uniqueKey: string, included: nat): Usage {
    Usage(P.AiInterviews, uniqueKey, 0, Period(0, 1), included, true)
  }

  const ONE_UNIT: seq<Grant> := [Grant(P.AiInterviews, P.Addon, 1, 0, None, 0)]

  function Overlap(included: nat): seq<Step> {
    [Read(0, Interview("a", included)), Read(1, Interview("b", included)), Begin(0), Begin(1), Take(0), Take(1)]
  }

  function OverlapMeter(): Meter {
    Meter(Ledger(ONE_UNIT, []), map[])
  }

  lemma NoneUsed(key: Key, period: Period)
    ensures Used([], key, period) == 0
  {
  }

  /** Up to the takes both reports have read an unused ledger. */
  lemma OverlapBegun(included: nat)
    ensures var a, b := Interview("a", included), Interview("b", included);
            Run(OverlapMeter(), Overlap(included))
            == Run(Meter(Ledger(ONE_UNIT, []), map[0 := Begun(a, 0, ONE_UNIT), 1 := Begun(b, 0, ONE_UNIT)]),
                   [Take(0), Take(1)])
  {
    hide TakeAndCommit, Used;
    var steps, a, b := Overlap(included), Interview("a", included), Interview("b", included);
    NoneUsed(P.AiInterviews, Period(0, 1));
    var m0 := OverlapMeter();
    var m1 := Next(m0, steps[0]);
    var m2 := Next(m1, steps[1]);
    var m3 := Next(m2, steps[2]);
    var m4 := Next(m3, steps[3]);
    assert m2.reports == map[0 := Reading(a, 0), 1 := Reading(b, 0)];
    assert m3.reports == map[0 := Begun(a, 0, ONE_UNIT), 1 := Reading(b, 0)];
    assert m4.reports == map[0 := Begun(a, 0, ONE_UNIT), 1 := Begun(b, 0, ONE_UNIT)];
    assert steps[1..][1..] == steps[2..] && steps[2..][1..] == steps[3..] && steps[3..][1..] == steps[4..];
    assert steps[4..] == [Take(0), Take(1)];
    assert Run(m0, steps) == Run(m1, steps[1..]) == Run(m2, steps[2..]) == Run(m3, steps[3..]) == Run(m4, steps[4..]);
  }

  lemma TwoTakes(m: Meter)
    requires Takes(m, Take(0)) && Takes(Next(m, Take(0)), Take(1))
    ensures var l := TakeAndCommit(m.ledger, m.reports[0]).0;
            Run(m, [Take(0), Take(1)]).ledger == TakeAndCommit(l, m.reports[1]).0
  {
    hide TakeAndCommit;
    var steps := [Take(0), Take(1)];
    assert steps[1..] == [Take(1)] && steps[1..][1..] == [];
    assert Run(m, steps) == Run(Next(m, Take(0)), [Take(1)]) == Next(Next(m, Take(0)), Take(1));
  }

  lemma OneRow(u: Usage)
    requires u == Interview(u.uniqueKey, u.included)
    ensures Rows(Begun(u, 0, ONE_UNIT)) == [Row(0, ONE_UNIT[0])]
  {
    hide Sort;
    assert EligibleRows(ONE_UNIT, u.key, u.now, 1) == EligibleRows(ONE_UNIT, u.key, u.now, 0) + [Row(0, ONE_UNIT[0])];
    assert EligibleRows(ONE_UNIT, u.key, u.now, 1) == [Row(0, ONE_UNIT[0])];
    SortSingle(Row(0, ONE_UNIT[0]), EarlierRow());
  }

  lemma SettleOne(grants: seq<Grant>, row: Row, need: nat)
    requires row.id < |grants| && need <= row.grant.Balance() && (need == 0 || need == 1)
    ensures Settle(grants, [row], need) == (Increment(grants, row.id, need), 0)
  {
    if need == 0 {
      assert Increment(grants, row.id, 0) == grants;
    } else {
      assert [row][1..] == [];
      assert Settle(Increment(grants, row.id, 1), [], 0) == (Increment(grants, row.id, 1), 0);
    }
  }

  lemma TakeOne(l: Ledger, u: Usage)
    requires |l.grants| == 1 && u == Interview(u.uniqueKey, u.included)
    ensures var (after, outcome) := TakeAndCommit(l, Begun(u, 0, ONE_UNIT));
            && after.events == l.events + [Event(u.key, u.uniqueKey, u.now)]
            && after.grants == [l.grants[0].(consumed := l.grants[0].consumed + if u.included == 0 then 1 else 0)]
  {
    hide Settle, Rows;
    OneRow(u);
    SettleOne(l.grants, Row(0, ONE_UNIT[0]), Begun(u, 0, ONE_UNIT).Need());
  }

  lemma TwoUsed(events: seq<Event>, period: Period)
    requires |events| == 2 && events[0].key == events[1].key
    requires period.Contains(events[0].occurredAt) && period.Contains(events[1].occurredAt)
    ensures Used(events, events[0].key, period) == 2
  {
    var first := events[..1];
    assert first[0] == events[0] && first[..0] == [];
    assert Used(first, events[0].key, period) == 1;
  }

  lemma OverlapEnds(included: nat)
    ensures var end := Run(OverlapMeter(), Overlap(included)).ledger;
            && Used(end.events, P.AiInterviews, Period(0, 1)) == 2
            && end.grants == [ONE_UNIT[0].(consumed := if included == 0 then 2 else 0)]
  {
    hide TakeAndCommit, Used, Run;
    var a, b := Interview("a", included), Interview("b", included);
    var m := Meter(Ledger(ONE_UNIT, []), map[0 := Begun(a, 0, ONE_UNIT), 1 := Begun(b, 0, ONE_UNIT)]);
    OverlapBegun(included);
    TakeOne(m.ledger, a);
    var l := TakeAndCommit(m.ledger, m.reports[0]).0;
    TakeOne(l, b);
    TwoTakes(m);
    var end := TakeAndCommit(l, m.reports[1]).0;
    assert end.events == [Event(a.key, "a", 0), Event(b.key, "b", 0)];
    TwoUsed(end.events, Period(0, 1));
  }

  /** Two reports that both read an untouched allowance of one unit are both counted, and the add-on that
      should have paid for the second keeps its unit. */
  lemma OverlapUnpaid()
    ensures var end := Run(OverlapMeter(), Overlap(1)).ledger;
            Used(end.events, P.AiInterviews, Period(0, 1)) == 2 && end.grants == ONE_UNIT
  {
    hide Run, Used;
    OverlapEnds(1);
  }

  /** Two reports beyond the allowance that both read the one unit of an add-on before either takes it are both
      counted, with no stale usage reading, and the add-on ends with two units consumed of one. */
  lemma OverlapOversold()
    ensures var m, steps := OverlapMeter(), Overlap(0);
            && Run(m, steps).ledger.grants == [ONE_UNIT[0].(consumed := 2)] && !ONE_UNIT[0].(consumed := 2).Valid()
            && Used(Run(m, steps).ledger.events, P.AiInterviews, Period(0, 1)) == 2
            && Unpaid(m, steps, P.AiInterviews) == 0 && OversoldUnits(m, steps, P.AiInterviews) == 1
  {
    hide Run, Next, Used, Unpaid, OversoldUnits;
    var m, steps := OverlapMeter(), Overlap(0);
    OverlapEnds(0);
    NoneUsed(P.AiInterviews, Period(0, 1));
    InterleavedBalance(m, steps, Period(0, 1), _ => 0, P.AiInterviews);
    OneGrant(ONE_UNIT[0]);
    OneGrant(ONE_UNIT[0].(consumed := 2));
  }

  lemma OneGrant(g: Grant)
    requires FromStock(g, g.key)
    ensures Consumed([g], g.key) == g.consumed
    ensures Overdraft([g], g.key) == if g.consumed > g.quantity then g.consumed - g.quantity else 0
  {
    assert [g][..0] == [];
  }
}
