/** Why draining ends: every report carries a budget of 20 settlements, and each committed ack or nack spends some. */
module DrainTermination {
  import opened Common
  import opened QueueModel
  import opened QueueRuns
  import opened Drain

  // ----- The measure: attempts left over the readable entries in a range of ids -----

  ghost function Weight(q: Queue, id: Uint64): nat {
    if NackFinds(q, id) && q.items[id].item.attempts < MAX_ATTEMPTS
    then MAX_ATTEMPTS - q.items[id].item.attempts else 0
  }

  predicate Within(low: nat, id: int, high: nat) { low <= id < high }

  /** The attempts left to the reports with ids from `low` up to, not including, `high`. */
  ghost function Budget(q: Queue, low: nat, high: nat): nat
    requires high <= TWO_64
  {
    if high <= low then 0 else Budget(q, low, high - 1) + Weight(q, high - 1)
  }

  lemma {:induction false} BudgetChange(q: Queue, q': Queue, id: Uint64, low: nat, high: nat)
    requires high <= TWO_64
    requires forall other: Uint64 | other != id :: Weight(q', other) == Weight(q, other)
    ensures Budget(q', low, high) + (if Within(low, id, high) then Weight(q, id) else 0)
         == Budget(q, low, high) + (if Within(low, id, high) then Weight(q', id) else 0)
  {
    if low < high { BudgetChange(q, q', id, low, high - 1); }
  }

  lemma {:induction false} BudgetSame(q: Queue, q': Queue, low: nat, high: nat)
    requires high <= TWO_64
    requires forall id: Uint64 | Within(low, id, high) :: Weight(q', id) == Weight(q, id)
    ensures Budget(q', low, high) == Budget(q, low, high)
  {
    if low < high { BudgetSame(q, q', low, high - 1); }
  }

  lemma {:induction false} WeightWithinBudget(q: Queue, id: Uint64, low: nat, high: nat)
    requires high <= TWO_64 && Within(low, id, high)
    ensures Weight(q, id) <= Budget(q, low, high)
  {
    if id < high - 1 { WeightWithinBudget(q, id, low, high - 1); }
  }

  /** What every queue looks like that only the drain loop has nacked. */
  ghost predicate Drainable(q: Queue) {
    forall id: Uint64 | NackFinds(q, id) :: q.items[id].item.id == id && q.items[id].item.attempts < MAX_ATTEMPTS
  }

  predicate IsSettlement(op: Op) { op.Ack? || (op.Nack? && op.maxAttempts == MAX_ATTEMPTS) }

  /** Acking a readable entry, or nacking it with the drain limit, spends a unit of every range it lies in. */
  lemma SettlementSpends(q: Queue, op: Op, low: nat, high: nat)
    requires high <= TWO_64 && Drainable(q) && IsSettlement(op)
    ensures Budget(Apply(q, op), low, high) + (if Within(low, op.id, high) && NackFinds(q, op.id) then 1 else 0)
         <= Budget(q, low, high)
  {
    BudgetChange(q, Apply(q, op), op.id, low, high);
  }

  lemma LeaseSpendsNothing(q: Queue, max: int, leaseMs: int, nowMs: int, low: nat, high: nat)
    requires high <= TWO_64
    ensures Budget(AfterLease(q, max, leaseMs, nowMs), low, high) == Budget(q, low, high)
  {
    BudgetSame(q, AfterLease(q, max, leaseMs, nowMs), low, high);
  }

  lemma InvariantDrainable(decodes: Payload -> bool, s: State)
    requires Invariant(decodes, s) && NoWrap(s.ops)
    ensures Drainable(Run(s.ops))
  {
    EntriesKeepIdentity(s.ops);
    forall id: Uint64 | NackFinds(Run(s.ops), id) ensures Run(s.ops).items[id].item.attempts < MAX_ATTEMPTS {
      OwnOpsLimit(s.ops, id);
      FateIsPresence(s.ops, id);
      LimitIsExact(s.ops, id, MAX_ATTEMPTS);
      AttemptsAreNacks(s.ops, id);
    }
  }

  // ----- Over every run -----

  /** Event `e` commits the settlement of a report in the range. */
  predicate Settles(decodes: Payload -> bool, s: State, e: Event, low: nat, high: nat) {
    && Enabled(decodes, s, e) && ((e.Drop? && e.committed) || (e.Settle? && e.committed))
    && Within(low, Held(s.stage)[0].id, high)
  }

  /** The committed settlements, in a run, of the reports in a range. */
  ghost function Settlements(decodes: Payload -> bool, events: seq<Event>, low: nat, high: nat): nat {
    if events == [] then 0
    else
      var before, e := events[..|events| - 1], events[|events| - 1];
      Settlements(decodes, before, low, high)
      + if Settles(decodes, After(decodes, before), e, low, high) then 1 else 0
  }

  /** How many of the ids 1 to `n` lie in the range. */
  function Issued(n: nat, low: nat, high: nat): nat {
    if n == 0 then 0 else Issued(n - 1, low, high) + if Within(low, n, high) then 1 else 0
  }

  /** Items of the range that the drain loop still holds although they can no longer be read; settling one spends
      no attempt, but it happens only once. */
  ghost function Stuck(q: Queue, items: seq<Item>, low: nat, high: nat): nat {
    if items == [] then 0
    else
      Stuck(q, items[1..], low, high) + if Within(low, items[0].id, high) && !NackFinds(q, items[0].id) then 1 else 0
  }

  ghost function Potential(s: State, low: nat, high: nat): nat
    requires high <= TWO_64
  {
    Budget(Run(s.ops), low, high) + Stuck(Run(s.ops), Held(s.stage), low, high)
  }

  /** In every run, and for every range of ids, the committed settlements and the attempts still left never exceed
      20 per enqueued report, however pushes fail, values are damaged and the process restarts. */
  lemma {:induction false} SettlementsAreBounded(decodes: Payload -> bool, events: seq<Event>, low: nat, high: nat)
    requires NoWrap(After(decodes, events).ops) && high <= TWO_64
    ensures Settlements(decodes, events, low, high) + Potential(After(decodes, events), low, high)
         <= MAX_ATTEMPTS * Issued(Enqueues(After(decodes, events).ops), low, high)
  {
    if events == [] {
      NothingToSpend(EMPTY, low, high);
    } else {
      var before := events[..|events| - 1];
      var s, e := After(decodes, before), events[|events| - 1];
      HistoryGrows(decodes, s, e);
      SettlementsAreBounded(decodes, before, low, high);
      InvariantHolds(decodes, before);
      StepSpends(decodes, s, e, low, high);
    }
  }

  /** No report is ever settled more than 20 times. */
  lemma TwentySettlementsPerReport(decodes: Payload -> bool, events: seq<Event>, id: Uint64)
    requires NoWrap(After(decodes, events).ops)
    ensures Settlements(decodes, events, id, id + 1) <= 20
  {
    SettlementsAreBounded(decodes, events, id, id + 1);
    IssuedOne(Enqueues(After(decodes, events).ops), id);
  }

  lemma {:induction false} IssuedOne(n: nat, id: nat)
    ensures Issued(n, id, id + 1) == if 1 <= id <= n then 1 else 0
  {
    if n > 0 { IssuedOne(n - 1, id); }
  }

  lemma {:induction false} IssuedUpTo(n: nat, k: nat)
    ensures Issued(n, 0, k + 1) == if k < n then k else n
  {
    if n > 0 { IssuedUpTo(n - 1, k); }
  }

  lemma {:induction false} NothingToSpend(q: Queue, low: nat, high: nat)
    requires high <= TWO_64 && forall id: Uint64 | Within(low, id, high) :: !NackFinds(q, id)
    ensures Budget(q, low, high) == 0
  {
    if low < high { NothingToSpend(q, low, high - 1); }
  }

  lemma StepSpends(decodes: Payload -> bool, s: State, e: Event, low: nat, high: nat)
    requires Invariant(decodes, s) && NoWrap(s.ops) && NoWrap(Next(decodes, s, e).ops) && high <= TWO_64
    ensures var s' := Next(decodes, s, e);
            Potential(s', low, high) + (if Settles(decodes, s, e, low, high) then 1 else 0)
              + MAX_ATTEMPTS * Issued(Enqueues(s.ops), low, high)
              <= Potential(s, low, high) + MAX_ATTEMPTS * Issued(Enqueues(s'.ops), low, high)
  {
    if Enabled(decodes, s, e) {
      match e
      case Report(payload, nowMs) => ReportSpends(decodes, s, payload, nowMs, low, high);
      case Corrupt(id) => CorruptSpends(decodes, s, id, low, high);
      case Tick(nowMs, committed) => if committed { LeaseSpends(decodes, s, nowMs, low, high); }
      case Push(ok) => assert Held(Next(decodes, s, e).stage) == Held(s.stage);
      case Drop(committed) =>
        SettleSpends(decodes, s, Ack(s.stage.batch[0].id), committed, low, high);
      case Settle(nowMs, committed) =>
        SettleSpends(decodes, s, SettleOp(s.stage.item, s.stage.delivered, nowMs), committed, low, high);
      case _ =>
    }
  }

  lemma {:induction false} StuckSame(q: Queue, q': Queue, items: seq<Item>, low: nat, high: nat)
    requires forall it | it in items :: NackFinds(q', it.id) <==> NackFinds(q, it.id)
    ensures Stuck(q', items, low, high) == Stuck(q, items, low, high)
  {
    if items != [] { StuckSame(q, q', items[1..], low, high); }
  }

  /** An id occurs at most once in a batch, so losing one entry makes at most one item stuck. */
  lemma {:induction false} StuckOneMore(q: Queue, q': Queue, items: seq<Item>, id: Uint64, low: nat, high: nat)
    requires forall other: Uint64 | other != id :: NackFinds(q', other) <==> NackFinds(q, other)
    requires forall i, j | 0 <= i < j < |items| :: items[i].id < items[j].id
    ensures Stuck(q', items, low, high) <= Stuck(q, items, low, high) + if Within(low, id, high) then 1 else 0
  {
    if items != [] {
      if items[0].id == id {
        StuckSame(q, q', items[1..], low, high);
      } else {
        StuckOneMore(q, q', items[1..], id, low, high);
      }
    }
  }

  lemma ReportSpends(decodes: Payload -> bool, s: State, payload: Payload, nowMs: int, low: nat, high: nat)
    requires Invariant(decodes, s) && NoWrap(s.ops + [Enqueue(payload, nowMs)]) && high <= TWO_64
    ensures var s' := s.(ops := s.ops + [Enqueue(payload, nowMs)]);
            Potential(s', low, high) + MAX_ATTEMPTS * Issued(Enqueues(s.ops), low, high)
              <= Potential(s, low, high) + MAX_ATTEMPTS * Issued(Enqueues(s'.ops), low, high)
  {
    Snoc(s.ops, Enqueue(payload, nowMs));
    NextIdIsNew(s.ops);
    EnqueueAddsBudget(Run(s.ops), payload, nowMs, low, high);
    EnqueueSticksNothing(decodes, s, payload, nowMs, low, high);
    var n := Enqueues(s.ops);
    assert Issued(n + 1, low, high) == Issued(n, low, high) + if Within(low, Bump(Run(s.ops).last), high) then 1 else 0;
  }

  lemma EnqueueSticksNothing(decodes: Payload -> bool, s: State, payload: Payload, nowMs: int, low: nat, high: nat)
    requires Invariant(decodes, s) && Enqueues(s.ops) + 1 < TWO_64
    ensures Stuck(AfterEnqueue(Run(s.ops), payload, nowMs), Held(s.stage), low, high)
         == Stuck(Run(s.ops), Held(s.stage), low, high)
  {
    var q, q' := Run(s.ops), AfterEnqueue(Run(s.ops), payload, nowMs);
    NextIdIsNew(s.ops);
    forall it | it in Held(s.stage) ensures NackFinds(q', it.id) <==> NackFinds(q, it.id) {
      assert it.id <= Enqueues(s.ops) by { assert HeldAs(s.ops, it); }
      EnqueueSparesOthers(q, payload, nowMs, it.id);
    }
    StuckSame(q, q', Held(s.stage), low, high);
  }

  lemma EnqueueSparesOthers(q: Queue, payload: Payload, nowMs: int, id: Uint64)
    requires id != Bump(q.last)
    ensures NackFinds(AfterEnqueue(q, payload, nowMs), id) <==> NackFinds(q, id)
  {
  }

  lemma EnqueueAddsBudget(q: Queue, payload: Payload, nowMs: int, low: nat, high: nat)
    requires high <= TWO_64
    ensures Budget(AfterEnqueue(q, payload, nowMs), low, high)
         <= Budget(q, low, high) + if Within(low, Bump(q.last), high) then MAX_ATTEMPTS else 0
  {
    BudgetChange(q, AfterEnqueue(q, payload, nowMs), Bump(q.last), low, high);
  }

  lemma CorruptSpends(decodes: Payload -> bool, s: State, id: Uint64, low: nat, high: nat)
    requires Invariant(decodes, s) && NoWrap(s.ops) && high <= TWO_64
    ensures var s' := s.(ops := s.ops + [Damage(id)]);
            Potential(s', low, high) <= Potential(s, low, high) && Enqueues(s'.ops) == Enqueues(s.ops)
  {
    var q, op := Run(s.ops), Damage(id);
    Snoc(s.ops, op);
    InvariantDrainable(decodes, s);
    BudgetChange(q, Apply(q, op), id, low, high);
    if NackFinds(q, id) {
      StuckOneMore(q, Apply(q, op), Held(s.stage), id, low, high);
    } else {
      StuckSame(q, Apply(q, op), Held(s.stage), low, high);
    }
  }

  lemma LeaseSpends(decodes: Payload -> bool, s: State, nowMs: int, low: nat, high: nat)
    requires Invariant(decodes, s) && NoWrap(s.ops) && high <= TWO_64
    ensures var items := LeaseResult(Run(s.ops), BATCH_SIZE, LEASE_MS, nowMs);
            var s' := State(s.ops + [Lease(BATCH_SIZE, LEASE_MS, nowMs)], s.pushed, Working(items));
            Potential(s', low, high) <= Potential(s, low, high) && Enqueues(s'.ops) == Enqueues(s.ops)
  {
    var op := Lease(BATCH_SIZE, LEASE_MS, nowMs);
    Snoc(s.ops, op);
    LeaseSpendsNothing(Run(s.ops), BATCH_SIZE, LEASE_MS, nowMs, low, high);
    InvariantDrainable(decodes, s);
    LentIds(Run(s.ops), nowMs);
    NothingStuck(Apply(Run(s.ops), op), LeaseResult(Run(s.ops), BATCH_SIZE, LEASE_MS, nowMs), low, high);
  }

  lemma {:induction false} NothingStuck(q: Queue, items: seq<Item>, low: nat, high: nat)
    requires forall it | it in items :: NackFinds(q, it.id)
    ensures Stuck(q, items, low, high) == 0
  {
    if items != [] { NothingStuck(q, items[1..], low, high); }
  }

  lemma SettleSpends(decodes: Payload -> bool, s: State, op: Op, committed: bool, low: nat, high: nat)
    requires Invariant(decodes, s) && NoWrap(s.ops) && Held(s.stage) != [] && high <= TWO_64
    requires IsSettlement(op) && op.id == Held(s.stage)[0].id
    ensures var s' := State(if committed then s.ops + [op] else s.ops, s.pushed, Working(Held(s.stage)[1..]));
            && Potential(s', low, high) + (if committed && Within(low, op.id, high) then 1 else 0)
               <= Potential(s, low, high)
            && Enqueues(s'.ops) == Enqueues(s.ops)
  {
    var q, held := Run(s.ops), Held(s.stage);
    if committed {
      Snoc(s.ops, op);
      InvariantDrainable(decodes, s);
      SettlementSpends(q, op, low, high);
      StuckSame(q, Apply(q, op), held[1..], low, high);
    }
  }

  // ----- One whole tick of the drain loop -----

  /** What the outside world does to the settling of one leased item. */
  datatype Outcome = Outcome(pushOk: bool, nowMs: int, fate: TxFate)

  function SettledBy(decodes: Payload -> bool, it: Item, o: Outcome): Op {
    SettleOp(it, !decodes(it.payload) || o.pushOk, o.nowMs)
  }

  ghost function SettleItem(decodes: Payload -> bool, q: Queue, it: Item, o: Outcome): Queue {
    if o.fate.Commits? then Apply(q, SettledBy(decodes, it, o)) else q
  }

  function ItemOps(decodes: Payload -> bool, it: Item, o: Outcome): seq<Op> {
    if o.fate.Commits? then [SettledBy(decodes, it, o)] else []
  }

  /** The operations committed while a batch is worked through. */
  function BatchOps(decodes: Payload -> bool, items: seq<Item>, outcomes: seq<Outcome>): seq<Op>
    requires |items| <= |outcomes|
  {
    if items == [] then []
    else
      var n := |items| - 1;
      BatchOps(decodes, items[..n], outcomes) + ItemOps(decodes, items[n], outcomes[n])
  }

  /** Works through a leased batch in order, item `i` meeting outcome `i`. */
  ghost function SettleAll(decodes: Payload -> bool, q: Queue, items: seq<Item>, outcomes: seq<Outcome>): Queue
    requires |items| <= |outcomes|
  {
    if items == [] then q
    else
      var n := |items| - 1;
      SettleItem(decodes, SettleAll(decodes, q, items[..n], outcomes), items[n], outcomes[n])
  }

  datatype TickInput = TickInput(nowMs: int, outcomes: seq<Outcome>)

  predicate FullTick(t: TickInput) { |t.outcomes| == BATCH_SIZE }

  /** The queue after one tick whose lease commits. */
  ghost function AfterTick(decodes: Payload -> bool, q: Queue, t: TickInput): Queue
    requires FullTick(t)
  {
    var items := LeaseResult(q, BATCH_SIZE, LEASE_MS, t.nowMs);
    SettleAll(decodes, AfterLease(q, BATCH_SIZE, LEASE_MS, t.nowMs), items, t.outcomes)
  }

  /** The operations one tick commits. */
  ghost function TickOps(decodes: Payload -> bool, q: Queue, t: TickInput): seq<Op>
    requires FullTick(t)
  {
    [Lease(BATCH_SIZE, LEASE_MS, t.nowMs)]
    + BatchOps(decodes, LeaseResult(q, BATCH_SIZE, LEASE_MS, t.nowMs), t.outcomes)
  }

  function ItemSent(decodes: Payload -> bool, it: Item, o: Outcome): seq<Delivery> {
    if decodes(it.payload) && o.pushOk then [Delivery(it.id, it.payload)] else []
  }

  /** The payloads the parent acknowledges while a batch is worked through, in order. */
  function Sent(decodes: Payload -> bool, items: seq<Item>, outcomes: seq<Outcome>): seq<Delivery>
    requires |items| <= |outcomes|
  {
    if items == [] then []
    else
      var n := |items| - 1;
      Sent(decodes, items[..n], outcomes) + ItemSent(decodes, items[n], outcomes[n])
  }

  // ----- What a tick does to each report -----

  /** Settling one item: what was delivered or cannot be decoded is gone; what failed has one more attempt and waits
      15 s from the clock reading of its nack, unless that was its 20th; a rolled-back settlement changes nothing. */
  lemma ItemFate(decodes: Payload -> bool, q: Queue, it: Item, o: Outcome, t: int)
    requires NackFinds(q, it.id)
    ensures var q', id, e := SettleItem(decodes, q, it, o), it.id, q.items[it.id].item;
            && (!o.fate.Commits? ==> q' == q)
            && (o.fate.Commits? && (!decodes(it.payload) || o.pushOk) ==> id !in q'.items)
            && (o.fate.Commits? && decodes(it.payload) && !o.pushOk ==>
                  if e.attempts + 1 >= 20 then id !in q'.items
                  else
                    && NackFinds(q', id)
                    && q'.items[id].item == Item(e.id, e.payload, e.attempts + 1, e.enqueuedMs, o.nowMs + 15_000, 0)
                    && (Due(q', id, t) <==> t >= 0 && t >= o.nowMs + 15_000))
            && (forall x | x in q.items && x != id :: x in q'.items && q'.items[x] == q.items[x])
            && (forall x | x in q'.items :: x in q.items)
  {
    AckFields(q, it.id);
    NackFields(q, it.id, BACKOFF_MS, o.nowMs, MAX_ATTEMPTS);
  }

  ghost predicate SameEntry(q: Queue, q': Queue, id: Uint64) {
    (id in q'.items <==> id in q.items) && (id in q.items ==> q'.items[id] == q.items[id])
  }

  lemma ItemIsLocal(decodes: Payload -> bool, q: Queue, q': Queue, it: Item, o: Outcome)
    requires SameEntry(q, q', it.id)
    ensures SameEntry(SettleItem(decodes, q, it, o), SettleItem(decodes, q', it, o), it.id)
  {
  }

  lemma OthersSpared(decodes: Payload -> bool, q: Queue, it: Item, o: Outcome, id: Uint64)
    requires id != it.id
    ensures SameEntry(q, SettleItem(decodes, q, it, o), id)
  {
    AckFields(q, it.id);
    NackFields(q, it.id, BACKOFF_MS, o.nowMs, MAX_ATTEMPTS);
  }

  /** In a batch each item meets its own outcome, and no other entry is touched. */
  lemma {:induction false} BatchFates(
      decodes: Payload -> bool, q: Queue, items: seq<Item>, outcomes: seq<Outcome>, id: Uint64)
    requires |items| <= |outcomes| && forall i, j | 0 <= i < j < |items| :: items[i].id < items[j].id
    ensures var q' := SettleAll(decodes, q, items, outcomes);
            && (forall i | 0 <= i < |items| && items[i].id == id ::
                  SameEntry(SettleItem(decodes, q, items[i], outcomes[i]), q', id))
            && ((forall i | 0 <= i < |items| :: items[i].id != id) ==> SameEntry(q, q', id))
  {
    if items != [] {
      var n := |items| - 1;
      var before := SettleAll(decodes, q, items[..n], outcomes);
      BatchFates(decodes, q, items[..n], outcomes, id);
      if items[n].id == id {
        ItemIsLocal(decodes, q, before, items[n], outcomes[n]);
      } else {
        OthersSpared(decodes, before, items[n], outcomes[n], id);
      }
    }
  }

  /** What one tick makes of the report it took as its `i`-th. */
  lemma TickFate(decodes: Payload -> bool, q: Queue, t: TickInput, i: nat, later: int)
    requires Drainable(q) && FullTick(t) && i < |LeasedIds(q, 5, t.nowMs)|
    ensures var q', id, o := AfterTick(decodes, q, t), LeasedIds(q, 5, t.nowMs)[i], t.outcomes[i];
            && NackFinds(q, id)
            && var e := q.items[id].item;
               && (!o.fate.Commits? ==> NackFinds(q', id) && q'.items[id].item == e.(leaseUntilMs := t.nowMs + 60_000))
               && (o.fate.Commits? && (!decodes(e.payload) || o.pushOk) ==> id !in q'.items)
               && (o.fate.Commits? && decodes(e.payload) && !o.pushOk ==>
                     if e.attempts + 1 >= 20 then id !in q'.items
                     else
                       && NackFinds(q', id) && q'.items[id].item.attempts == e.attempts + 1
                       && q'.items[id].item.payload == e.payload
                       && (Due(q', id, later) <==> later >= 0 && later >= o.nowMs + 15_000))
  {
    var items, lent := LeaseResult(q, 5, 60_000, t.nowMs), AfterLease(q, 5, 60_000, t.nowMs);
    LeaseFields(q, 5, 60_000, t.nowMs);
    LentIds(q, t.nowMs);
    ItemFate(decodes, lent, items[i], t.outcomes[i], later);
    BatchFates(decodes, lent, items, t.outcomes, items[i].id);
  }

  /** A tick leaves alone every report it did not take. */
  lemma TickSpares(decodes: Payload -> bool, q: Queue, t: TickInput, id: Uint64)
    requires Drainable(q) && FullTick(t) && id !in LeasedIds(q, 5, t.nowMs)
    ensures SameEntry(q, AfterTick(decodes, q, t), id)
  {
    var items, lent := LeaseResult(q, 5, 60_000, t.nowMs), AfterLease(q, 5, 60_000, t.nowMs);
    LeaseFields(q, 5, 60_000, t.nowMs);
    LentIds(q, t.nowMs);
    BatchFates(decodes, lent, items, t.outcomes, id);
  }

  /** A batch delivers exactly the decodable items whose push succeeds, in order. */
  lemma {:induction false} SentExactly(decodes: Payload -> bool, items: seq<Item>, outcomes: seq<Outcome>)
    requires |items| <= |outcomes| && forall i, j | 0 <= i < j < |items| :: items[i].id < items[j].id
    ensures var sent := Sent(decodes, items, outcomes);
            && (forall i | 0 <= i < |items| ::
                  Delivery(items[i].id, items[i].payload) in sent <==> decodes(items[i].payload) && outcomes[i].pushOk)
            && (forall d | d in sent :: exists i :: 0 <= i < |items| && d == Delivery(items[i].id, items[i].payload))
            && forall j, k | 0 <= j < k < |sent| :: sent[j].id < sent[k].id
  {
    if items != [] {
      var n := |items| - 1;
      var before, sent := Sent(decodes, items[..n], outcomes), Sent(decodes, items, outcomes);
      SentExactly(decodes, items[..n], outcomes);
      forall d | d in before ensures d.id < items[n].id {
        var i :| 0 <= i < n && d == Delivery(items[..n][i].id, items[..n][i].payload);
        assert items[i].id < items[n].id;
      }
      forall d | d in sent ensures exists i :: 0 <= i < |items| && d == Delivery(items[i].id, items[i].payload) {
        if d in before {
          var i :| 0 <= i < n && d == Delivery(items[..n][i].id, items[..n][i].payload);
          assert d == Delivery(items[i].id, items[i].payload);
        }
      }
      forall i | 0 <= i < |items|
        ensures Delivery(items[i].id, items[i].payload) in sent <==> decodes(items[i].payload) && outcomes[i].pushOk
      {
        if i < n { assert items[..n][i] == items[i]; }
      }
      forall j, k | 0 <= j < k < |sent| ensures sent[j].id < sent[k].id {
        if k == |before| { assert before[j] in before; }
      }
    }
  }

  // ----- A tick is a run of the protocol -----

  function ItemEvents(decodes: Payload -> bool, it: Item, o: Outcome): seq<Event> {
    if decodes(it.payload) then [Push(o.pushOk), Settle(o.nowMs, o.fate.Commits?)] else [Drop(o.fate.Commits?)]
  }

  function BatchEvents(decodes: Payload -> bool, items: seq<Item>, outcomes: seq<Outcome>): seq<Event>
    requires |items| <= |outcomes|
  {
    if items == [] then []
    else
      var n := |items| - 1;
      BatchEvents(decodes, items[..n], outcomes) + ItemEvents(decodes, items[n], outcomes[n])
  }

  lemma {:induction false} FromConcat(decodes: Payload -> bool, s: State, a: seq<Event>, b: seq<Event>)
    ensures From(decodes, s, a + b) == From(decodes, From(decodes, s, a), b)
  {
    if b == [] {
      assert a + b == a;
    } else {
      assert (a + b)[..|a + b| - 1] == a + b[..|b| - 1];
      FromConcat(decodes, s, a, b[..|b| - 1]);
    }
  }

  lemma ItemRun(decodes: Payload -> bool, s: State, o: Outcome)
    requires s.stage.Working? && s.stage.batch != []
    ensures var it := s.stage.batch[0];
            From(decodes, s, ItemEvents(decodes, it, o))
            == State(s.ops + ItemOps(decodes, it, o), s.pushed + ItemSent(decodes, it, o), Working(s.stage.batch[1..]))
  {
    var it := s.stage.batch[0];
    assert s.ops + [] == s.ops && s.pushed + [] == s.pushed;
    if decodes(it.payload) {
      FromTwo(decodes, s, Push(o.pushOk), Settle(o.nowMs, o.fate.Commits?));
    } else {
      FromOne(decodes, s, Drop(o.fate.Commits?));
    }
  }

  lemma FromOne(decodes: Payload -> bool, s: State, e: Event)
    ensures From(decodes, s, [e]) == Next(decodes, s, e)
  {
    assert [e][..0] == [];
  }

  lemma FromTwo(decodes: Payload -> bool, s: State, a: Event, b: Event)
    ensures From(decodes, s, [a, b]) == Next(decodes, Next(decodes, s, a), b)
  {
    FromOne(decodes, s, a);
    assert [a, b][..1] == [a];
  }

  lemma Regroup<T>(a: seq<T>, b: seq<T>, c: seq<T>)
    ensures a + b + c == a + (b + c)
  {
  }

  lemma {:induction false} BatchRun(decodes: Payload -> bool, s: State, n: nat, outcomes: seq<Outcome>)
    requires s.stage.Working? && n <= |s.stage.batch| <= |outcomes|
    ensures var items := s.stage.batch[..n];
            From(decodes, s, BatchEvents(decodes, items, outcomes))
            == State(s.ops + BatchOps(decodes, items, outcomes), s.pushed + Sent(decodes, items, outcomes),
                     Working(s.stage.batch[n..]))
  {
    if n == 0 {
      assert s.ops + [] == s.ops && s.pushed + [] == s.pushed && s.stage.batch[0..] == s.stage.batch;
    } else {
      var before, it, o := s.stage.batch[..n - 1], s.stage.batch[n - 1], outcomes[n - 1];
      assert s.stage.batch[..n][..n - 1] == before;
      BatchRun(decodes, s, n - 1, outcomes);
      var mid := From(decodes, s, BatchEvents(decodes, before, outcomes));
      assert mid.stage.batch[0] == it && mid.stage.batch[1..] == s.stage.batch[n..];
      ItemRun(decodes, mid, o);
      FromConcat(decodes, s, BatchEvents(decodes, before, outcomes), ItemEvents(decodes, it, o));
      Regroup(s.ops, BatchOps(decodes, before, outcomes), ItemOps(decodes, it, o));
      Regroup(s.pushed, Sent(decodes, before, outcomes), ItemSent(decodes, it, o));
    }
  }

  lemma {:induction false} BatchEffect(
      decodes: Payload -> bool, ops: seq<Op>, items: seq<Item>, outcomes: seq<Outcome>)
    requires |items| <= |outcomes|
    ensures var ops' := ops + BatchOps(decodes, items, outcomes);
            Run(ops') == SettleAll(decodes, Run(ops), items, outcomes) && Enqueues(ops') == Enqueues(ops)
  {
    if items == [] {
      assert ops + [] == ops;
    } else {
      var n := |items| - 1;
      var before, op := ops + BatchOps(decodes, items[..n], outcomes), SettledBy(decodes, items[n], outcomes[n]);
      BatchEffect(decodes, ops, items[..n], outcomes);
      assert before + [] == before;
      if outcomes[n].fate.Commits? {
        Snoc(before, op);
        assert ops + BatchOps(decodes, items, outcomes) == before + [op];
      } else {
        assert ops + BatchOps(decodes, items, outcomes) == before + [];
      }
    }
  }

  /** The operations of a tick have its effect. */
  lemma TickEffect(decodes: Payload -> bool, ops: seq<Op>, t: TickInput)
    requires FullTick(t)
    ensures var ops' := ops + TickOps(decodes, Run(ops), t);
            Run(ops') == AfterTick(decodes, Run(ops), t) && Enqueues(ops') == Enqueues(ops)
  {
    var op := Lease(BATCH_SIZE, LEASE_MS, t.nowMs);
    var items := LeaseResult(Run(ops), BATCH_SIZE, LEASE_MS, t.nowMs);
    Snoc(ops, op);
    BatchEffect(decodes, ops + [op], items, t.outcomes);
    assert ops + TickOps(decodes, Run(ops), t) == ops + [op] + BatchOps(decodes, items, t.outcomes);
  }

  lemma TickRun(decodes: Payload -> bool, s: State, t: TickInput) returns (events: seq<Event>)
    requires s.stage == Working([]) && FullTick(t)
    ensures var items := LeaseResult(Run(s.ops), BATCH_SIZE, LEASE_MS, t.nowMs);
            From(decodes, s, events)
            == State(s.ops + TickOps(decodes, Run(s.ops), t), s.pushed + Sent(decodes, items, t.outcomes), Working([]))
  {
    var first := Tick(t.nowMs, true);
    var items := LeaseResult(Run(s.ops), BATCH_SIZE, LEASE_MS, t.nowMs);
    var mid := From(decodes, s, [first]);
    FromOne(decodes, s, first);
    assert items[..|items|] == items && items[|items|..] == [];
    BatchRun(decodes, mid, |items|, t.outcomes);
    events := [first] + BatchEvents(decodes, items, t.outcomes);
    FromConcat(decodes, s, [first], BatchEvents(decodes, items, t.outcomes));
    Regroup(s.ops, [Lease(BATCH_SIZE, LEASE_MS, t.nowMs)], BatchOps(decodes, items, t.outcomes));
  }

  /** One tick of the loop, undisturbed, is a run of the protocol that ends waiting for the next tick. */
  lemma TickIsARun(decodes: Payload -> bool, s: State, t: TickInput) returns (events: seq<Event>)
    requires s.stage == Working([]) && FullTick(t)
    ensures var s' := From(decodes, s, events);
            && s'.ops == s.ops + TickOps(decodes, Run(s.ops), t)
            && Run(s'.ops) == AfterTick(decodes, Run(s.ops), t)
            && Enqueues(s'.ops) == Enqueues(s.ops)
            && s'.stage == Working([])
            && s'.pushed == s.pushed + Sent(decodes, LeaseResult(Run(s.ops), BATCH_SIZE, LEASE_MS, t.nowMs), t.outcomes)
  {
    events := TickRun(decodes, s, t);
    TickEffect(decodes, s.ops, t);
  }

  // ----- A tick spends attempts -----

  /** Some report up to `k` that the tick leases gets its ack or nack committed. */
  ghost predicate SomeSettle(q: Queue, k: Uint64, t: TickInput)
    requires FullTick(t)
  {
    var ids := LeasedIds(q, BATCH_SIZE, t.nowMs);
    exists i :: 0 <= i < |ids| && ids[i] <= k && t.outcomes[i].fate.Commits?
  }

  ghost predicate SameUnreadable(q: Queue, q': Queue) {
    forall id: Uint64 :: id in q'.items && q'.items[id].Unreadable? <==> id in q.items && q.items[id].Unreadable?
  }

  ghost predicate NothingReadable(q: Queue, k: Uint64) { forall id: Uint64 | id <= k :: !NackFinds(q, id) }

  /** How many of the first `n` leased items lie in the range and get their settlement committed. */
  function CommitsAmong(items: seq<Item>, outcomes: seq<Outcome>, n: nat, low: nat, high: nat): nat
    requires n <= |items| <= |outcomes|
  {
    if n == 0 then 0
    else
      CommitsAmong(items, outcomes, n - 1, low, high)
      + if outcomes[n - 1].fate.Commits? && Within(low, items[n - 1].id, high) then 1 else 0
  }

  lemma {:induction false} CommitsCount(
      items: seq<Item>, outcomes: seq<Outcome>, n: nat, low: nat, high: nat, i: nat)
    requires i < n <= |items| <= |outcomes| && outcomes[i].fate.Commits? && Within(low, items[i].id, high)
    ensures CommitsAmong(items, outcomes, n, low, high) >= 1
  {
    if i < n - 1 { CommitsCount(items, outcomes, n - 1, low, high, i); }
  }

  /** Working through the first `n` leased items spends a unit per commit and concerns only them. */
  lemma {:induction false} BatchSpends(
      decodes: Payload -> bool, q: Queue, items: seq<Item>, n: nat, outcomes: seq<Outcome>, low: nat, high: nat)
    requires n <= |items| <= |outcomes| && Drainable(q) && high <= TWO_64
    requires forall it | it in items :: NackFinds(q, it.id)
    requires forall i, j | 0 <= i < j < |items| :: items[i].id < items[j].id
    ensures var q' := SettleAll(decodes, q, items[..n], outcomes);
            && Budget(q', low, high) + CommitsAmong(items, outcomes, n, low, high) <= Budget(q, low, high)
            && Drainable(q')
            && (forall i | n <= i < |items| :: NackFinds(q', items[i].id))
            && SameUnreadable(q, q') && q'.last == q.last
  {
    if n > 0 {
      assert items[..n][..n - 1] == items[..n - 1];
      BatchSpends(decodes, q, items, n - 1, outcomes, low, high);
      var mid := SettleAll(decodes, q, items[..n - 1], outcomes);
      assert NackFinds(mid, items[n - 1].id);
      ItemSpends(decodes, mid, items[n - 1], outcomes[n - 1], low, high);
    }
  }

  lemma ItemSpends(decodes: Payload -> bool, q: Queue, it: Item, o: Outcome, low: nat, high: nat)
    requires Drainable(q) && NackFinds(q, it.id) && high <= TWO_64
    ensures var q' := SettleItem(decodes, q, it, o);
            && Budget(q', low, high) + (if o.fate.Commits? && Within(low, it.id, high) then 1 else 0)
               <= Budget(q, low, high)
            && Drainable(q')
            && SameUnreadable(q, q') && q'.last == q.last
            && forall id: Uint64 | id != it.id && NackFinds(q, id) :: NackFinds(q', id)
  {
    if o.fate.Commits? { SettlementSpends(q, SettledBy(decodes, it, o), low, high); }
  }

  /** A tick keeps a queue drainable, keeps exactly its unreadable entries and spends a unit per commit. */
  lemma TickSpends(decodes: Payload -> bool, q: Queue, t: TickInput, low: nat, high: nat)
    requires Drainable(q) && FullTick(t) && high <= TWO_64
    ensures var q' := AfterTick(decodes, q, t);
            var items := LeaseResult(q, BATCH_SIZE, LEASE_MS, t.nowMs);
            && Budget(q', low, high) + CommitsAmong(items, t.outcomes, |items|, low, high) <= Budget(q, low, high)
            && Drainable(q')
            && SameUnreadable(q, q') && q'.last == q.last
  {
    var items := LeaseResult(q, BATCH_SIZE, LEASE_MS, t.nowMs);
    var lent := AfterLease(q, BATCH_SIZE, LEASE_MS, t.nowMs);
    LeaseSpendsNothing(q, BATCH_SIZE, LEASE_MS, t.nowMs, low, high);
    assert Drainable(lent);
    LentIds(q, t.nowMs);
    BatchSpends(decodes, lent, items, |items|, t.outcomes, low, high);
    assert items[..|items|] == items;
  }

  /** The items of a lease carry the ids it took, and are still readable. */
  lemma LentIds(q: Queue, nowMs: int)
    requires Drainable(q)
    ensures var ids, items := LeasedIds(q, BATCH_SIZE, nowMs), LeaseResult(q, BATCH_SIZE, LEASE_MS, nowMs);
            && |items| == |ids|
            && forall i | 0 <= i < |items| ::
                 items[i].id == ids[i] && NackFinds(AfterLease(q, BATCH_SIZE, LEASE_MS, nowMs), items[i].id)
  {
    var ids, items := LeasedIds(q, BATCH_SIZE, nowMs), LeaseResult(q, BATCH_SIZE, LEASE_MS, nowMs);
    forall i | 0 <= i < |items|
      ensures items[i].id == ids[i] && NackFinds(AfterLease(q, BATCH_SIZE, LEASE_MS, nowMs), items[i].id)
    {
      assert ids[i] in ids;
      assert NackFinds(q, ids[i]);
    }
  }
}
