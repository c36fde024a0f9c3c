/** The drain protocol over whole runs: reports are enqueued, leased in batches, pushed to the parent and settled,
    while pushes fail, transactions roll back, stored values become unreadable and the process restarts between any
    two steps. */
module Drain {
  import opened Common
  import opened QueueModel
  import opened QueueRuns

  const BATCH_SIZE := 5
  const LEASE_MS := 60_000
  const BACKOFF_MS := 15_000
  const MAX_ATTEMPTS := 20

  /** Where the single drain loop stands: a batch still to work through, or an item whose push has
      returned and whose ack or nack comes next.  An empty batch waits for the next tick. */
  datatype Stage =
    | Working(batch: seq<Item>)
    | Settling(item: Item, delivered: bool, batch: seq<Item>)

  datatype Delivery = Delivery(id: Uint64, payload: Payload)

  /** `ops` are the queue operations committed so far, `pushed` the pushes the parent acknowledged. */
  datatype State = State(ops: seq<Op>, pushed: seq<Delivery>, stage: Stage)

  datatype Event =
    | Report(payload: Payload, nowMs: int)  // an enqueue commits
    | Tick(nowMs: int, committed: bool)     // the drain loop leases a batch
    | Drop(committed: bool)                 // the next item does not decode and is acked
    | Push(ok: bool)                        // the next item decodes and is pushed
    | Settle(nowMs: int, committed: bool)   // ack after a successful push, nack after a failed one
    | Corrupt(id: Uint64)                   // a stored value stops being readable
    | Restart

  const START := State([], [], Working([]))

  predicate Enabled(decodes: Payload -> bool, s: State, e: Event) {
    match e
    case Report(_, _) => true
    case Corrupt(_) => true
    case Restart => true
    case Tick(_, _) => s.stage.Working? && s.stage.batch == []
    case Drop(_) => s.stage.Working? && s.stage.batch != [] && !decodes(s.stage.batch[0].payload)
    case Push(_) => s.stage.Working? && s.stage.batch != [] && decodes(s.stage.batch[0].payload)
    case Settle(_, _) => s.stage.Settling?
  }

  function SettleOp(item: Item, delivered: bool, nowMs: int): Op {
    if delivered then Ack(item.id) else Nack(item.id, BACKOFF_MS, nowMs, MAX_ATTEMPTS)
  }

  /** An event that is not enabled does nothing, so that every sequence of events is a run. */
  ghost function Next(decodes: Payload -> bool, s: State, e: Event): State {
    if !Enabled(decodes, s, e) then s else
    match e
    case Report(payload, nowMs) => s.(ops := s.ops + [Enqueue(payload, nowMs)])
    case Corrupt(id) => s.(ops := s.ops + [Damage(id)])
    case Restart => s.(stage := Working([]))
    case Tick(nowMs, committed) =>
      if committed
      then s.(ops := s.ops + [Lease(BATCH_SIZE, LEASE_MS, nowMs)],
              stage := Working(LeaseResult(Run(s.ops), BATCH_SIZE, LEASE_MS, nowMs)))
      else s
    case Drop(committed) =>
      s.(ops := if committed then s.ops + [Ack(s.stage.batch[0].id)] else s.ops,
         stage := Working(s.stage.batch[1..]))
    case Push(ok) =>
      var it := s.stage.batch[0];
      s.(pushed := if ok then s.pushed + [Delivery(it.id, it.payload)] else s.pushed,
         stage := Settling(it, ok, s.stage.batch[1..]))
    case Settle(nowMs, committed) =>
      s.(ops := if committed then s.ops + [SettleOp(s.stage.item, s.stage.delivered, nowMs)] else s.ops,
         stage := Working(s.stage.batch))
  }

  /** The state reached from `s` by a run. */
  ghost function From(decodes: Payload -> bool, s: State, events: seq<Event>): State {
    if events == [] then s
    else Next(decodes, From(decodes, s, events[..|events| - 1]), events[|events| - 1])
  }

  ghost function After(decodes: Payload -> bool, events: seq<Event>): State { From(decodes, START, events) }

  // ----- The invariant -----

  /** The items the drain loop currently holds. */
  function Held(stage: Stage): seq<Item> {
    match stage
    case Working(batch) => batch
    case Settling(item, _, batch) => [item] + batch
  }

  /** A held item is what was enqueued under its id, is still in the queue, and counts the attempts made so far. */
  ghost predicate HeldAs(ops: seq<Op>, it: Item) {
    && 1 <= it.id <= Enqueues(ops) && it.payload == NthEnqueue(ops, it.id).payload
    && it.id in Run(ops).items
    && (NackFinds(Run(ops), it.id) ==> Run(ops).items[it.id].item.attempts == it.attempts)
    && LeasedBefore(ops, |ops|, it.id)
  }

  /** Every held item is held rightly, and only once. */
  ghost predicate HeldAreLive(s: State) {
    && (forall it | it in Held(s.stage) :: HeldAs(s.ops, it))
    && forall i, j | 0 <= i < j < |Held(s.stage)| :: Held(s.stage)[i].id < Held(s.stage)[j].id
  }

  /** Every operation in the history is one the protocol issues. */
  predicate OwnOp(op: Op) {
    match op
    case Enqueue(_, _) => true
    case Lease(max, leaseMs, _) => max == BATCH_SIZE && leaseMs == LEASE_MS
    case Ack(_) => true
    case Nack(_, backoffMs, _, maxAttempts) => backoffMs == BACKOFF_MS && maxAttempts == MAX_ATTEMPTS
    case Damage(_) => true
  }

  predicate OwnOps(ops: seq<Op>) { forall i | 0 <= i < |ops| :: OwnOp(ops[i]) }

  /** An acked report was acknowledged by the parent, or could not be decoded. */
  ghost predicate AcksJustified(decodes: Payload -> bool, s: State) {
    forall id: Uint64 | 1 <= id <= Enqueues(s.ops) && FateOf(s.ops, id).Acked? ::
      var payload := NthEnqueue(s.ops, id).payload;
      !decodes(payload) || Delivery(id, payload) in s.pushed
  }

  ghost predicate PushRecorded(decodes: Payload -> bool, s: State) {
    s.stage.Settling? ==>
      decodes(s.stage.item.payload)
      && (s.stage.delivered ==> Delivery(s.stage.item.id, s.stage.item.payload) in s.pushed)
  }

  /** The drain loop settles only what it was handed. */
  ghost predicate Disciplined(ops: seq<Op>) {
    forall k, id: Uint64 | 0 <= k < |ops| && (ops[k] == Ack(id) || NacksAt(ops, k, id)) :: LeasedBefore(ops, k, id)
  }

  ghost predicate Invariant(decodes: Payload -> bool, s: State) {
    OwnOps(s.ops) && HeldAreLive(s) && PushRecorded(decodes, s) && AcksJustified(decodes, s) && Disciplined(s.ops)
  }

  // ----- Appending one operation -----

  lemma LeasesAtSnoc(ops: seq<Op>, op: Op, k: nat, id: Uint64)
    requires k < |ops|
    ensures LeasesAt(ops + [op], k, id) <==> LeasesAt(ops, k, id)
    ensures NacksAt(ops + [op], k, id) <==> NacksAt(ops, k, id)
  {
    assert (ops + [op])[..k] == ops[..k];
  }

  lemma LeasedBeforeSnoc(ops: seq<Op>, op: Op, i: nat, id: Uint64)
    requires i <= |ops| && LeasedBefore(ops, i, id)
    ensures LeasedBefore(ops + [op], i, id) && LeasedBefore(ops + [op], |ops| + 1, id)
  {
    var k :| 0 <= k < i && LeasesAt(ops, k, id);
    LeasesAtSnoc(ops, op, k, id);
  }

  lemma DisciplinedSnoc(ops: seq<Op>, op: Op)
    requires Disciplined(ops)
    requires op.Ack? || op.Nack? ==> LeasedBefore(ops, |ops|, op.id)
    ensures Disciplined(ops + [op])
  {
    var all := ops + [op];
    forall k, id: Uint64 | 0 <= k < |all| && (all[k] == Ack(id) || NacksAt(all, k, id))
      ensures LeasedBefore(all, k, id)
    {
      if k < |ops| {
        LeasesAtSnoc(ops, op, k, id);
        assert all[k] == ops[k];
        LeasedBeforeSnoc(ops, op, k, id);
      } else {
        LeasedBeforeSnoc(ops, op, |ops|, id);
      }
    }
  }

  /** A held item stays rightly held while others are settled, new ones arrive or values are damaged. */
  lemma StillHeld(ops: seq<Op>, op: Op, it: Item)
    requires NoWrap(ops + [op]) && HeldAs(ops, it)
    requires op.Ack? || op.Nack? ==> op.id != it.id
    ensures HeldAs(ops + [op], it)
  {
    Snoc(ops, op);
    EntriesKeepIdentity(ops);
    LeasedBeforeSnoc(ops, op, |ops|, it.id);
    EntrySpared(Run(ops), op, it.id);
  }

  lemma EntrySpared(q: Queue, op: Op, id: Uint64)
    requires id in q.items && (op.Ack? || op.Nack? ==> op.id != id) && (op.Enqueue? ==> id != Bump(q.last))
    ensures id in Apply(q, op).items
    ensures NackFinds(Apply(q, op), id) ==>
              NackFinds(q, id) && Apply(q, op).items[id].item.attempts == q.items[id].item.attempts
  {
  }

  // ----- The invariant holds in every reachable state -----

  /** An operation that removes no live entry without a good reason leaves acks as justified as before. */
  lemma AcksStayJustified(decodes: Payload -> bool, s: State, op: Op, pushed: seq<Delivery>, stage: Stage)
    requires NoWrap(s.ops + [op]) && AcksJustified(decodes, s)
    requires forall d | d in s.pushed :: d in pushed
    requires op.Ack? && 1 <= op.id <= Enqueues(s.ops) ==>
               var payload := NthEnqueue(s.ops, op.id).payload;
               !decodes(payload) || Delivery(op.id, payload) in pushed
    ensures AcksJustified(decodes, State(s.ops + [op], pushed, stage))
  {
    Snoc(s.ops, op);
    var s' := State(s.ops + [op], pushed, stage);
    forall id: Uint64 | 1 <= id <= Enqueues(s'.ops) && FateOf(s'.ops, id).Acked?
      ensures var payload := NthEnqueue(s'.ops, id).payload;
              !decodes(payload) || Delivery(id, payload) in s'.pushed
    {
      FateIsPresence(s.ops, id);
      assert id <= Enqueues(s.ops);
      assert NthEnqueue(s'.ops, id) == NthEnqueue(s.ops, id);
    }
  }

  lemma {:induction false} InvariantHolds(decodes: Payload -> bool, events: seq<Event>)
    requires NoWrap(After(decodes, events).ops)
    ensures Invariant(decodes, After(decodes, events))
  {
    if events != [] {
      var s, e := After(decodes, events[..|events| - 1]), events[|events| - 1];
      HistoryGrows(decodes, s, e);
      InvariantHolds(decodes, events[..|events| - 1]);
      InvariantKept(decodes, s, e);
    }
  }

  lemma HistoryGrows(decodes: Payload -> bool, s: State, e: Event)
    ensures Enqueues(s.ops) <= Enqueues(Next(decodes, s, e).ops)
    ensures Next(decodes, s, e).ops == s.ops
            || exists op :: OwnOp(op) && Next(decodes, s, e).ops == s.ops + [op]
  {
    if Enabled(decodes, s, e) {
      match e
      case Report(payload, nowMs) => Snoc(s.ops, Enqueue(payload, nowMs));
      case Tick(nowMs, committed) => Snoc(s.ops, Lease(BATCH_SIZE, LEASE_MS, nowMs));
      case Corrupt(id) => Snoc(s.ops, Damage(id));
      case Drop(_) => Snoc(s.ops, Ack(s.stage.batch[0].id));
      case Settle(nowMs, _) => Snoc(s.ops, SettleOp(s.stage.item, s.stage.delivered, nowMs));
      case _ =>
    }
  }

  /** Each step keeps the invariant. */
  lemma InvariantKept(decodes: Payload -> bool, s: State, e: Event)
    requires Invariant(decodes, s) && NoWrap(Next(decodes, s, e).ops)
    ensures Invariant(decodes, Next(decodes, s, e))
  {
    if Enabled(decodes, s, e) {
      match e
      case Report(payload, nowMs) => OtherKeeps(decodes, s, Enqueue(payload, nowMs));
      case Corrupt(id) => OtherKeeps(decodes, s, Damage(id));
      case Restart =>
      case Push(ok) => PushKeeps(decodes, s, ok);
      case Tick(nowMs, committed) => if committed { TickKeeps(decodes, s, nowMs); }
      case Drop(committed) => SettlementKeeps(decodes, s, Ack(s.stage.batch[0].id), committed);
      case Settle(nowMs, committed) =>
        SettlementKeeps(decodes, s, SettleOp(s.stage.item, s.stage.delivered, nowMs), committed);
    }
  }

  lemma PushKeeps(decodes: Payload -> bool, s: State, ok: bool)
    requires Invariant(decodes, s) && Enabled(decodes, s, Push(ok))
    ensures Invariant(decodes, Next(decodes, s, Push(ok)))
  {
    var s' := Next(decodes, s, Push(ok));
    assert Held(s'.stage) == Held(s.stage);
    assert forall d | d in s.pushed :: d in s'.pushed;
  }

  /** Acking or nacking the item at hand, whether or not the transaction commits. */
  lemma SettlementKeeps(decodes: Payload -> bool, s: State, op: Op, committed: bool)
    requires Invariant(decodes, s) && Held(s.stage) != []
    requires OwnOp(op) && (op.Ack? || op.Nack?) && op.id == Held(s.stage)[0].id
    requires var it := Held(s.stage)[0];
             op.Ack? ==> !decodes(it.payload) || Delivery(it.id, it.payload) in s.pushed
    requires NoWrap(s.ops + [op])
    ensures Invariant(decodes, State(if committed then s.ops + [op] else s.ops, s.pushed,
                                     Working(Held(s.stage)[1..])))
  {
    var held := Held(s.stage);
    if committed {
      RemoveKeeps(decodes, s, op, held[0], held[1..]);
    } else {
      assert forall i | 0 <= i < |held| - 1 :: held[1..][i] == held[i + 1];
    }
  }

  /** Steps that are none of the drain loop's. */
  lemma OtherKeeps(decodes: Payload -> bool, s: State, op: Op)
    requires Invariant(decodes, s) && NoWrap(s.ops + [op]) && (op.Enqueue? || op.Damage?)
    ensures Invariant(decodes, s.(ops := s.ops + [op]))
  {
    AcksStayJustified(decodes, s, op, s.pushed, s.stage);
    DisciplinedSnoc(s.ops, op);
    forall it | it in Held(s.stage) ensures HeldAs(s.ops + [op], it) { StillHeld(s.ops, op, it); }
    OwnOpsSnoc(s.ops, op);
  }

  lemma TickKeeps(decodes: Payload -> bool, s: State, nowMs: int)
    requires Invariant(decodes, s) && NoWrap(s.ops + [Lease(BATCH_SIZE, LEASE_MS, nowMs)])
    ensures Invariant(decodes, State(s.ops + [Lease(BATCH_SIZE, LEASE_MS, nowMs)], s.pushed,
                                     Working(LeaseResult(Run(s.ops), BATCH_SIZE, LEASE_MS, nowMs))))
  {
    var op := Lease(BATCH_SIZE, LEASE_MS, nowMs);
    var out := LeaseResult(Run(s.ops), BATCH_SIZE, LEASE_MS, nowMs);
    var ids := LeasedIds(Run(s.ops), BATCH_SIZE, nowMs);
    AcksStayJustified(decodes, s, op, s.pushed, Working(out));
    DisciplinedSnoc(s.ops, op);
    OwnOpsSnoc(s.ops, op);
    forall i | 0 <= i < |out| ensures out[i].id == ids[i] && HeldAs(s.ops + [op], out[i]) {
      assert ids[i] in ids && NackFinds(Run(s.ops), ids[i]);
      EntriesKeepIdentity(s.ops);
      LeasedIsHeld(s.ops, nowMs, out[i]);
    }
  }

  lemma LeasedIsHeld(ops: seq<Op>, nowMs: int, it: Item)
    requires NoWrap(ops) && it in LeaseResult(Run(ops), BATCH_SIZE, LEASE_MS, nowMs)
    requires it.id in LeasedIds(Run(ops), BATCH_SIZE, nowMs)
    ensures HeldAs(ops + [Lease(BATCH_SIZE, LEASE_MS, nowMs)], it)
  {
    var op := Lease(BATCH_SIZE, LEASE_MS, nowMs);
    LeaseReturnsWhatWasEnqueued(ops, BATCH_SIZE, LEASE_MS, nowMs, it);
    Snoc(ops, op);
    EntrySpared(Run(ops), op, it.id);
    assert (ops + [op])[..|ops|] == ops;
    assert LeasesAt(ops + [op], |ops|, it.id);
  }

  /** Settling the first held item, by ack or by nack, concerns no other held item. */
  lemma RemoveKeeps(decodes: Payload -> bool, s: State, op: Op, it: Item, rest: seq<Item>)
    requires Invariant(decodes, s) && NoWrap(s.ops + [op])
    requires Held(s.stage) == [it] + rest && OwnOp(op)
    requires (op.Ack? || op.Nack?) && op.id == it.id
    requires op.Ack? ==> !decodes(it.payload) || Delivery(it.id, it.payload) in s.pushed
    ensures Invariant(decodes, s.(ops := s.ops + [op], stage := Working(rest)))
  {
    var held := Held(s.stage);
    assert held[0] == it && it in held;
    assert forall i | 0 <= i < |rest| :: rest[i] == held[i + 1];
    AcksStayJustified(decodes, s, op, s.pushed, Working(rest));
    DisciplinedSnoc(s.ops, op);
    forall other | other in rest ensures HeldAs(s.ops + [op], other) {
      var i :| 0 <= i < |rest| && rest[i] == other;
      assert other == held[i + 1] && other in held;
      StillHeld(s.ops, op, other);
    }
    OwnOpsSnoc(s.ops, op);
  }

  lemma OwnOpsSnoc(ops: seq<Op>, op: Op)
    requires OwnOps(ops) && OwnOp(op)
    ensures OwnOps(ops + [op])
  {
  }

  // ----- What the steps do to the queue -----

  /** A tick takes up to 5 due reports, for 60 s. */
  lemma TickEffectOnQueue(decodes: Payload -> bool, s: State, nowMs: int)
    requires s.stage == Working([])
    ensures var s' := Next(decodes, s, Tick(nowMs, true));
            && Run(s'.ops) == AfterLease(Run(s.ops), 5, 60_000, nowMs)
            && s'.stage == Working(LeaseResult(Run(s.ops), 5, 60_000, nowMs)) && |s'.stage.batch| <= 5
            && Next(decodes, s, Tick(nowMs, false)) == s
  {
    Snoc(s.ops, Lease(BATCH_SIZE, LEASE_MS, nowMs));
  }

  /** Settling an item after its push: an acknowledged report is gone; a failed one is kept, with one more attempt and
      a backoff of 15 s from the clock reading of the nack, unless that was its 20th.  Nothing else changes, and
      nothing at all if the transaction is rolled back. */
  lemma SettleEffectOnQueue(decodes: Payload -> bool, s: State, nowMs: int, t: int)
    requires s.stage.Settling?
    ensures var s', q, id := Next(decodes, s, Settle(nowMs, true)), Run(s.ops), s.stage.item.id;
            var q' := Run(s'.ops);
            && s'.stage == Working(s.stage.batch) && s'.pushed == s.pushed
            && (forall x | x in q.items && x != id :: x in q'.items && q'.items[x] == q.items[x])
            && (forall x | x in q'.items :: x in q.items)
            && (s.stage.delivered ==> id !in q'.items)
            && (!s.stage.delivered && NackFinds(q, id) ==>
                  var attempts := q.items[id].item.attempts + 1;
                  if attempts >= 20 then id !in q'.items
                  else
                    && NackFinds(q', id) && q'.items[id].item.attempts == attempts
                    && q'.items[id].item.payload == q.items[id].item.payload
                    && (Due(q', id, t) <==> t >= 0 && t >= nowMs + 15_000))
            && Next(decodes, s, Settle(nowMs, false)) == s.(stage := Working(s.stage.batch))
  {
    var q, id := Run(s.ops), s.stage.item.id;
    Snoc(s.ops, SettleOp(s.stage.item, s.stage.delivered, nowMs));
    if s.stage.delivered {
      AckFields(q, id);
    } else {
      NackFields(q, id, BACKOFF_MS, nowMs, MAX_ATTEMPTS);
    }
  }

  /** An undecodable report is dropped, and nothing else. */
  lemma DropEffectOnQueue(decodes: Payload -> bool, s: State)
    requires s.stage.Working? && s.stage.batch != [] && !decodes(s.stage.batch[0].payload)
    ensures var s', id := Next(decodes, s, Drop(true)), s.stage.batch[0].id;
            && Run(s'.ops).items == (map x | x in Run(s.ops).items && x != id :: Run(s.ops).items[x])
            && s'.stage == Working(s.stage.batch[1..]) && s'.pushed == s.pushed
            && Next(decodes, s, Drop(false)) == s.(stage := Working(s.stage.batch[1..]))
  {
    Snoc(s.ops, Ack(s.stage.batch[0].id));
    AckFields(Run(s.ops), s.stage.batch[0].id);
  }

  /** A push records what the parent acknowledges. */
  lemma PushEffect(decodes: Payload -> bool, s: State, ok: bool)
    requires s.stage.Working? && s.stage.batch != [] && decodes(s.stage.batch[0].payload)
    ensures var s', it := Next(decodes, s, Push(ok)), s.stage.batch[0];
            && s'.ops == s.ops && s'.stage == Settling(it, ok, s.stage.batch[1..])
            && s'.pushed == if ok then s.pushed + [Delivery(it.id, it.payload)] else s.pushed
  {
  }

  /** A new report joins the queue; the drain loop does not notice. */
  lemma ReportEffect(decodes: Payload -> bool, s: State, payload: Payload, nowMs: int)
    ensures var s' := Next(decodes, s, Report(payload, nowMs));
            && Run(s'.ops) == AfterEnqueue(Run(s.ops), payload, nowMs) && s'.stage == s.stage && s'.pushed == s.pushed
  {
    Snoc(s.ops, Enqueue(payload, nowMs));
  }

  /** A crash loses the batch in hand, and nothing else; damage changes one stored value. */
  lemma AccidentEffects(decodes: Payload -> bool, s: State, id: Uint64)
    ensures Next(decodes, s, Restart) == s.(stage := Working([]))
    ensures var s', q := Next(decodes, s, Corrupt(id)), Run(s.ops);
            && Run(s'.ops) == q.(items := if id in q.items then q.items[id := Unreadable] else q.items)
            && s'.stage == s.stage && s'.pushed == s.pushed
  {
    Snoc(s.ops, Damage(id));
  }

  // ----- Main results -----

  lemma OwnOpsLimit(ops: seq<Op>, id: Uint64)
    requires OwnOps(ops)
    ensures NackLimit(ops, id, MAX_ATTEMPTS)
  {
  }

  /** An entry is unreadable only after its stored value was damaged. */
  lemma {:induction false} UnreadableWasDamaged(ops: seq<Op>, id: Uint64)
    requires id in Run(ops).items && Run(ops).items[id].Unreadable?
    ensures Damage(id) in ops
  {
    var q := Run(Init(ops));
    if Last(ops) != Damage(id) {
      assert id in q.items && q.items[id].Unreadable?;
      UnreadableWasDamaged(Init(ops), id);
    }
  }

  /** How often the run has pushed report `id` without success. */
  ghost function FailedPushes(decodes: Payload -> bool, events: seq<Event>, id: Uint64): nat {
    if events == [] then 0
    else
      var before, e := events[..|events| - 1], events[|events| - 1];
      var s := After(decodes, before);
      FailedPushes(decodes, before, id)
      + if e == Push(false) && Enabled(decodes, s, e) && s.stage.batch[0].id == id then 1 else 0
  }

  /** The item whose push has failed and whose nack comes next. */
  predicate AboutToNack(s: State, id: Uint64) {
    s.stage.Settling? && !s.stage.delivered && s.stage.item.id == id
  }

  /** Every nack is due to a failed push of the same report. */
  lemma {:induction false} NacksAreFailedPushes(decodes: Payload -> bool, events: seq<Event>, id: Uint64)
    ensures NackCount(After(decodes, events).ops, id) + (if AboutToNack(After(decodes, events), id) then 1 else 0)
         <= FailedPushes(decodes, events, id)
  {
    if events != [] {
      var before, e := events[..|events| - 1], events[|events| - 1];
      NacksAreFailedPushes(decodes, before, id);
      NackStep(decodes, After(decodes, before), e, id);
    }
  }

  lemma NackStep(decodes: Payload -> bool, s: State, e: Event, id: Uint64)
    ensures var s' := Next(decodes, s, e);
            NackCount(s'.ops, id) + (if AboutToNack(s', id) then 1 else 0)
            <= NackCount(s.ops, id) + (if AboutToNack(s, id) then 1 else 0)
               + if e == Push(false) && Enabled(decodes, s, e) && s.stage.batch[0].id == id then 1 else 0
  {
    if Next(decodes, s, e).ops != s.ops {
      HistoryGrows(decodes, s, e);
      Snoc(s.ops, Last(Next(decodes, s, e).ops));
    }
  }

  /** At least once, over every run: a committed report is in the queue, or was acknowledged by the parent with its
      own payload, or cannot be decoded, or failed to be pushed at least 20 times and was nacked exactly 20 times.
      Only a report whose stored value was damaged is in the queue without being readable. */
  lemma AtLeastOnce(decodes: Payload -> bool, events: seq<Event>, id: Uint64)
    requires NoWrap(After(decodes, events).ops)
    requires 1 <= id <= Enqueues(After(decodes, events).ops)
    ensures var s := After(decodes, events);
            var payload := NthEnqueue(s.ops, id).payload;
            match FateOf(s.ops, id)
            case Unborn => false
            case Live =>
              && id in Run(s.ops).items && NackCount(s.ops, id) < 20
              && (Run(s.ops).items[id].Unreadable? ==> Damage(id) in s.ops)
            case Acked => id !in Run(s.ops).items && (decodes(payload) ==> Delivery(id, payload) in s.pushed)
            case Exhausted =>
              && id !in Run(s.ops).items && NackCount(s.ops, id) == 20
              && FailedPushes(decodes, events, id) >= 20
  {
    var s := After(decodes, events);
    InvariantHolds(decodes, events);
    OwnOpsLimit(s.ops, id);
    FateIsPresence(s.ops, id);
    LimitIsExact(s.ops, id, MAX_ATTEMPTS);
    NacksAreFailedPushes(decodes, events, id);
    if id in Run(s.ops).items && Run(s.ops).items[id].Unreadable? { UnreadableWasDamaged(s.ops, id); }
  }

  /** Nothing is delivered that was not enqueued: a push carries the payload enqueued under its id. */
  lemma {:induction false} PushesAreGenuine(decodes: Payload -> bool, events: seq<Event>, d: Delivery)
    requires NoWrap(After(decodes, events).ops) && d in After(decodes, events).pushed
    ensures var ops := After(decodes, events).ops;
            1 <= d.id <= Enqueues(ops) && d.payload == NthEnqueue(ops, d.id).payload && decodes(d.payload)
  {
    if events != [] {
      var s, e := After(decodes, events[..|events| - 1]), events[|events| - 1];
      var s' := After(decodes, events);
      HistoryGrows(decodes, s, e);
      InvariantHolds(decodes, events[..|events| - 1]);
      EntriesKeepIdentity(s.ops);
      if d in s.pushed {
        PushesAreGenuine(decodes, events[..|events| - 1], d);
      } else {
        var it := s.stage.batch[0];
        assert it in Held(s.stage);
        assert d == Delivery(it.id, it.payload);
      }
      if s'.ops != s.ops {
        var op :| OwnOp(op) && s'.ops == s.ops + [op];
        Snoc(s.ops, op);
      }
    }
  }

  /** The drain loop never handles one report twice within its lease unless it nacked it in between:
      two leases with no nack between are 60 s apart, across any restarts. */
  lemma DrainLeasesAreExclusive(decodes: Payload -> bool, events: seq<Event>, i: nat, j: nat, id: Uint64)
    requires var ops := After(decodes, events).ops;
             NoWrap(ops) && i < j && LeasesAt(ops, i, id) && LeasesAt(ops, j, id) && NoNackBetween(ops, i, j, id)
    ensures var ops := After(decodes, events).ops; ops[j].nowMs >= ops[i].nowMs + 60_000
  {
    InvariantHolds(decodes, events);
    LeasesAreExclusive(After(decodes, events).ops, i, j, id);
  }

  /** If reports are enqueued with non-decreasing times, the drain loop first takes them up in id order; only a
      report whose stored value was damaged before it was taken up is passed over, and that for good. */
  lemma DrainIsFifo(decodes: Payload -> bool, events: seq<Event>, i: nat, a: Uint64, b: Uint64)
    requires var ops := After(decodes, events).ops;
             NoWrap(ops) && 1 <= a < b <= Enqueues(ops) && LeasesAt(ops, i, b)
             && NthEnqueue(ops, a).nowMs <= NthEnqueue(ops, b).nowMs
    ensures var ops := After(decodes, events).ops;
            || LeasedBefore(ops, i + 1, a)
            || (Damage(a) in ops[..i] && forall j: nat :: !LeasesAt(ops, j, a))
  {
    var ops := After(decodes, events).ops;
    InvariantHolds(decodes, events);
    NoOvertaking(ops, i, a, b);
    if !LeasedBefore(ops, i + 1, a) {
      FoundIsEnqueued(ops, i, i, b);
      GoneForAReason(ops, i, a);
      var k: nat :| k < i && Removes(ops, k, a);
      assert ops[k] == ops[..i][k];
      assert !LeasedBefore(ops, k, a);
      forall j: nat ensures !LeasesAt(ops, j, a) {
        if LeasesAt(ops, j, a) { FirstLeasesInOrder(ops, i, j, a, b); }
      }
    }
  }
}
