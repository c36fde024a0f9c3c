/** Every report is settled in the end: what counts as progress, how ticks make it, and how long it takes. */
module DrainLiveness {
  import opened Common
  import opened QueueModel
  import opened QueueRuns
  import opened Drain
  import opened DrainTermination

  // ----- Enough progress settles every report, over the events alone -----

  /** Report `id` is done with: acknowledged by the parent, undecodable, failed 20 times, or damaged in the store. */
  ghost predicate Settled(decodes: Payload -> bool, events: seq<Event>, id: Uint64) {
    var s := After(decodes, events);
    && 1 <= id <= Enqueues(s.ops)
    && match FateOf(s.ops, id)
       case Unborn => false
       case Live => id in Run(s.ops).items && Run(s.ops).items[id].Unreadable? && Damage(id) in s.ops
       case Acked =>
         var payload := NthEnqueue(s.ops, id).payload;
         decodes(payload) ==> Delivery(id, payload) in s.pushed
       case Exhausted => FailedPushes(decodes, events, id) >= 20
  }

  /** In state `s`, event `e` commits the settlement of a report up to `k`, or there is none left to settle. */
  ghost predicate Progresses(decodes: Payload -> bool, s: State, e: Event, k: Uint64) {
    Settles(decodes, s, e, 0, k + 1) || NothingReadable(Run(s.ops), k)
  }

  /** How many of the events `more`, which follow `events`, make progress. */
  ghost function Progress(decodes: Payload -> bool, events: seq<Event>, more: seq<Event>, k: Uint64): nat {
    if more == [] then 0
    else
      var n := |more| - 1;
      Progress(decodes, events, more[..n], k)
      + if Progresses(decodes, After(decodes, events + more[..n]), more[n], k) then 1 else 0
  }

  lemma AfterSnoc(decodes: Payload -> bool, events: seq<Event>, more: seq<Event>)
    requires more != []
    ensures After(decodes, events + more)
         == Next(decodes, After(decodes, events + more[..|more| - 1]), more[|more| - 1])
  {
    assert (events + more)[..|events + more| - 1] == events + more[..|more| - 1];
  }

  lemma NothingAppears(q: Queue, op: Op, id: Uint64)
    requires !NackFinds(q, id) && (op.Enqueue? ==> id != Bump(q.last))
    ensures !NackFinds(Apply(q, op), id)
  {
  }

  lemma NothingReadableStays(ops: seq<Op>, op: Op, k: Uint64)
    requires NoWrap(ops + [op]) && k <= Enqueues(ops) && NothingReadable(Run(ops), k)
    ensures NothingReadable(Run(ops + [op]), k)
  {
    var q := Run(ops);
    Snoc(ops, op);
    if op.Enqueue? { NextIdIsNew(ops); }
    forall id: Uint64 | id <= k ensures !NackFinds(Apply(q, op), id) { NothingAppears(q, op, id); }
  }

  /** One step of the count below. */
  lemma StepProgresses(decodes: Payload -> bool, s: State, e: Event, k: Uint64)
    requires Invariant(decodes, s) && NoWrap(s.ops) && NoWrap(Next(decodes, s, e).ops) && k <= Enqueues(s.ops)
    ensures var s' := Next(decodes, s, e);
            if NothingReadable(Run(s.ops), k) then NothingReadable(Run(s'.ops), k)
            else Potential(s', 0, k + 1) + (if Progresses(decodes, s, e, k) then 1 else 0) <= Potential(s, 0, k + 1)
  {
    var s' := Next(decodes, s, e);
    HistoryGrows(decodes, s, e);
    if !NothingReadable(Run(s.ops), k) {
      StepSpends(decodes, s, e, 0, k + 1);
      IssuedUpTo(Enqueues(s.ops), k);
      IssuedUpTo(Enqueues(s'.ops), k);
    } else if s'.ops != s.ops {
      NothingReadableStays(s.ops, Last(s'.ops), k);
    }
  }

  /** Progress uses the potential up, unless nothing readable is left. */
  ghost predicate UsedUp(decodes: Payload -> bool, events: seq<Event>, more: seq<Event>, k: Uint64) {
    var s, s' := After(decodes, events), After(decodes, events + more);
    || Potential(s', 0, k + 1) + Progress(decodes, events, more, k) <= Potential(s, 0, k + 1)
    || NothingReadable(Run(s'.ops), k)
  }

  lemma {:induction false} ProgressSpends(decodes: Payload -> bool, events: seq<Event>, more: seq<Event>, k: Uint64)
    requires NoWrap(After(decodes, events + more).ops) && k <= Enqueues(After(decodes, events).ops)
    ensures k <= Enqueues(After(decodes, events + more).ops) && UsedUp(decodes, events, more, k)
  {
    if more == [] {
      assert events + more == events;
    } else {
      var n := |more| - 1;
      var s, e := After(decodes, events + more[..n]), more[n];
      AfterSnoc(decodes, events, more);
      HistoryGrows(decodes, s, e);
      ProgressSpends(decodes, events, more[..n], k);
      InvariantHolds(decodes, events + more[..n]);
      StepProgresses(decodes, s, e, k);
    }
  }

  /** From any point of any run, whatever else happens, every report up to `k` is settled once the run has made as
      much progress as these reports have attempts left: early ticks, idle ticks, failed leases, rolled-back
      settlements, new reports, damage and restarts may come in between anywhere. */
  lemma EveryReportIsSettled(decodes: Payload -> bool, events: seq<Event>, more: seq<Event>, k: Uint64)
    requires NoWrap(After(decodes, events + more).ops) && k <= Enqueues(After(decodes, events).ops)
    requires Progress(decodes, events, more, k) >= Potential(After(decodes, events), 0, k + 1)
    ensures forall id: Uint64 | 1 <= id <= k :: Settled(decodes, events + more, id)
  {
    var s' := After(decodes, events + more);
    ProgressSpends(decodes, events, more, k);
    InvariantHolds(decodes, events + more);
    InvariantDrainable(decodes, s');
    forall id: Uint64 | 1 <= id <= k ensures !NackFinds(Run(s'.ops), id) {
      WeightWithinBudget(Run(s'.ops), id, 0, k + 1);
    }
    UnreadableIsSettled(decodes, events + more, k);
  }

  lemma UnreadableIsSettled(decodes: Payload -> bool, events: seq<Event>, k: Uint64)
    requires NoWrap(After(decodes, events).ops) && k <= Enqueues(After(decodes, events).ops)
    requires forall id: Uint64 | 1 <= id <= k :: !NackFinds(Run(After(decodes, events).ops), id)
    ensures forall id: Uint64 | 1 <= id <= k :: Settled(decodes, events, id)
  {
    forall id: Uint64 | 1 <= id <= k ensures Settled(decodes, events, id) {
      AtLeastOnce(decodes, events, id);
      assert !NackFinds(Run(After(decodes, events).ops), id);
    }
  }

  /** Twenty steps of progress per report up to `k` are always enough. */
  lemma TwentyPerReport(decodes: Payload -> bool, events: seq<Event>, k: Uint64)
    requires NoWrap(After(decodes, events).ops)
    ensures Budget(Run(After(decodes, events).ops), 0, k + 1) <= Potential(After(decodes, events), 0, k + 1)
    ensures Potential(After(decodes, events), 0, k + 1) <= MAX_ATTEMPTS * k
  {
    SettlementsAreBounded(decodes, events, 0, k + 1);
    IssuedUpTo(Enqueues(After(decodes, events).ops), k);
  }

  // ----- Ticks while reports keep arriving -----

  datatype Arrival = Arrival(payload: Payload, nowMs: int)

  /** Any number of new reports, and then a tick. */
  datatype Round = Round(arrivals: seq<Arrival>, tick: TickInput)

  ghost function AfterArrivals(q: Queue, arrivals: seq<Arrival>): Queue {
    if arrivals == [] then q
    else
      var n := |arrivals| - 1;
      AfterEnqueue(AfterArrivals(q, arrivals[..n]), arrivals[n].payload, arrivals[n].nowMs)
  }

  ghost function AfterRound(decodes: Payload -> bool, q: Queue, r: Round): Queue
    requires FullTick(r.tick)
  {
    AfterTick(decodes, AfterArrivals(q, r.arrivals), r.tick)
  }

  ghost function AfterRounds(decodes: Payload -> bool, q: Queue, rounds: seq<Round>): Queue
    requires forall r | r in rounds :: FullTick(r.tick)
    decreases |rounds|
  {
    if rounds == [] then q else AfterRounds(decodes, AfterRound(decodes, q, rounds[0]), rounds[1..])
  }

  function Arrivals(rounds: seq<Round>): nat
    decreases |rounds|
  {
    if rounds == [] then 0 else |rounds[0].arrivals| + Arrivals(rounds[1..])
  }

  /** The tick settles some report up to `k`, or there is none left. */
  ghost predicate Useful(q: Queue, k: Uint64, t: TickInput)
    requires FullTick(t)
  {
    NothingReadable(q, k) || SomeSettle(q, k, t)
  }

  /** How many of the ticks are useful; the others may come early, find nothing or lose every transaction. */
  ghost function UsefulTicks(decodes: Payload -> bool, q: Queue, k: Uint64, rounds: seq<Round>): nat
    requires forall r | r in rounds :: FullTick(r.tick)
    decreases |rounds|
  {
    if rounds == [] then 0
    else
      (if Useful(AfterArrivals(q, rounds[0].arrivals), k, rounds[0].tick) then 1 else 0)
      + UsefulTicks(decodes, AfterRound(decodes, q, rounds[0]), k, rounds[1..])
  }

  /** The two queues have the same entries up to `k`. */
  ghost predicate SameUpTo(q: Queue, q': Queue, k: Uint64) {
    forall id: Uint64 | id <= k ::
      && (id in q'.items <==> id in q.items)
      && (id in q.items ==> q'.items[id] == q.items[id])
  }

  /** New reports come after those enqueued before, and are drainable. */
  lemma {:induction false} ArrivalsComeLater(q: Queue, arrivals: seq<Arrival>, k: Uint64)
    requires Drainable(q) && k <= q.last && q.last + |arrivals| < TWO_64
    ensures var q' := AfterArrivals(q, arrivals);
            Drainable(q') && q'.last == q.last + |arrivals| && SameUpTo(q, q', k)
  {
    if arrivals != [] {
      ArrivalsComeLater(q, arrivals[..|arrivals| - 1], k);
    }
  }

  /** A tick adds nothing to the attempts left to the reports up to `k`; a useful one takes some, if any are left. */
  lemma UsefulTickSpends(decodes: Payload -> bool, q: Queue, k: Uint64, t: TickInput)
    requires Drainable(q) && FullTick(t)
    ensures var q' := AfterTick(decodes, q, t);
            && Drainable(q') && q'.last == q.last && SameUnreadable(q, q')
            && Budget(q', 0, k + 1) <= Budget(q, 0, k + 1)
            && (Useful(q, k, t) ==> Budget(q', 0, k + 1) < Budget(q, 0, k + 1) || Budget(q', 0, k + 1) == 0)
  {
    TickSpends(decodes, q, t, 0, k + 1);
    if NothingReadable(q, k) {
      NothingToSpend(q, 0, k + 1);
    } else if SomeSettle(q, k, t) {
      var ids := LeasedIds(q, BATCH_SIZE, t.nowMs);
      var items := LeaseResult(q, BATCH_SIZE, LEASE_MS, t.nowMs);
      LentIds(q, t.nowMs);
      var i: nat :| i < |ids| && ids[i] <= k && t.outcomes[i].fate.Commits?;
      CommitsCount(items, t.outcomes, |items|, 0, k + 1, i);
    }
  }

  /** One round: new reports concern none of those up to `k`. */
  lemma RoundSpends(decodes: Payload -> bool, q: Queue, k: Uint64, r: Round)
    requires Drainable(q) && FullTick(r.tick) && k <= q.last && q.last + |r.arrivals| < TWO_64
    ensures var q' := AfterRound(decodes, q, r);
            var useful := Useful(AfterArrivals(q, r.arrivals), k, r.tick);
            && Drainable(q') && q'.last == q.last + |r.arrivals|
            && Budget(q', 0, k + 1) <= Budget(q, 0, k + 1)
            && (useful ==> Budget(q', 0, k + 1) < Budget(q, 0, k + 1) || Budget(q', 0, k + 1) == 0)
            && UnreadableUpTo(q, q', k)
  {
    var q1 := AfterArrivals(q, r.arrivals);
    ArrivalsComeLater(q, r.arrivals, k);
    BudgetSame(q, q1, 0, k + 1);
    UsefulTickSpends(decodes, q1, k, r.tick);
  }

  ghost predicate UnreadableUpTo(q: Queue, q': Queue, k: Uint64) {
    forall id: Uint64 | id <= k ::
      id in q'.items && q'.items[id].Unreadable? <==> id in q.items && q.items[id].Unreadable?
  }

  /** However many new reports keep arriving and however pushes fail, ticks of which as many are useful as there are
      attempts left to the reports up to `k` remove them all, and leave exactly the unreadable ones behind. */
  lemma {:induction false} TicksEmptyTheQueue(decodes: Payload -> bool, q: Queue, k: Uint64, rounds: seq<Round>)
    requires Drainable(q) && k <= q.last && q.last + Arrivals(rounds) < TWO_64
    requires forall r | r in rounds :: FullTick(r.tick)
    requires UsefulTicks(decodes, q, k, rounds) >= Budget(q, 0, k + 1)
    ensures var q' := AfterRounds(decodes, q, rounds);
            NothingReadable(q', k) && UnreadableUpTo(q, q', k)
    decreases |rounds|
  {
    if rounds == [] {
      forall id: Uint64 | id <= k ensures !NackFinds(q, id) { WeightWithinBudget(q, id, 0, k + 1); }
    } else {
      RoundSpends(decodes, q, k, rounds[0]);
      TicksEmptyTheQueue(decodes, AfterRound(decodes, q, rounds[0]), k, rounds[1..]);
    }
  }

  lemma {:induction false} ArrivalsAreARun(decodes: Payload -> bool, s: State, arrivals: seq<Arrival>)
    returns (events: seq<Event>)
    ensures var s' := From(decodes, s, events);
            && Run(s'.ops) == AfterArrivals(Run(s.ops), arrivals)
            && Enqueues(s'.ops) == Enqueues(s.ops) + |arrivals|
            && s'.stage == s.stage
  {
    if arrivals == [] { return []; }
    var n := |arrivals| - 1;
    var before := ArrivalsAreARun(decodes, s, arrivals[..n]);
    var e := Report(arrivals[n].payload, arrivals[n].nowMs);
    Snoc(From(decodes, s, before).ops, Enqueue(e.payload, e.nowMs));
    FromConcat(decodes, s, before, [e]);
    FromOne(decodes, From(decodes, s, before), e);
    events := before + [e];
  }

  /** Rounds are a run of the protocol. */
  lemma {:induction false} RoundsAreARun(decodes: Payload -> bool, s: State, rounds: seq<Round>)
    returns (events: seq<Event>)
    requires s.stage == Working([]) && forall r | r in rounds :: FullTick(r.tick)
    ensures var s' := From(decodes, s, events);
            && Run(s'.ops) == AfterRounds(decodes, Run(s.ops), rounds)
            && Enqueues(s'.ops) == Enqueues(s.ops) + Arrivals(rounds)
    decreases |rounds|
  {
    if rounds == [] { return []; }
    var new_ := ArrivalsAreARun(decodes, s, rounds[0].arrivals);
    var s1 := From(decodes, s, new_);
    var tick := TickIsARun(decodes, s1, rounds[0].tick);
    var s2 := From(decodes, s1, tick);
    var rest := RoundsAreARun(decodes, s2, rounds[1..]);
    events := new_ + (tick + rest);
    FromConcat(decodes, s, new_, tick + rest);
    FromConcat(decodes, s1, tick, rest);
  }

  lemma RestartAndRounds(decodes: Payload -> bool, events: seq<Event>, rounds: seq<Round>) returns (more: seq<Event>)
    requires forall r | r in rounds :: FullTick(r.tick)
    ensures var ops, ops' := After(decodes, events).ops, After(decodes, events + more).ops;
            Run(ops') == AfterRounds(decodes, Run(ops), rounds) && Enqueues(ops') == Enqueues(ops) + Arrivals(rounds)
  {
    var s := After(decodes, events);
    FromOne(decodes, s, Restart);
    var rest := RoundsAreARun(decodes, From(decodes, s, [Restart]), rounds);
    more := [Restart] + rest;
    FromConcat(decodes, s, [Restart], rest);
    FromConcat(decodes, START, events, more);
  }

  lemma ReachableDrainable(decodes: Payload -> bool, events: seq<Event>)
    requires NoWrap(After(decodes, events).ops)
    ensures Drainable(Run(After(decodes, events).ops))
    ensures Run(After(decodes, events).ops).last == Enqueues(After(decodes, events).ops)
  {
    InvariantHolds(decodes, events);
    InvariantDrainable(decodes, After(decodes, events));
    EntriesKeepIdentity(After(decodes, events).ops);
  }

  /** From any point of any run, a restart and such ticks settle every report up to `k`. */
  lemma TicksSettleEveryReport(decodes: Payload -> bool, events: seq<Event>, k: Uint64, rounds: seq<Round>)
    returns (more: seq<Event>)
    requires Enqueues(After(decodes, events).ops) + Arrivals(rounds) < TWO_64
    requires k <= Enqueues(After(decodes, events).ops)
    requires forall r | r in rounds :: FullTick(r.tick)
    requires var q := Run(After(decodes, events).ops); UsefulTicks(decodes, q, k, rounds) >= Budget(q, 0, k + 1)
    ensures Run(After(decodes, events + more).ops) == AfterRounds(decodes, Run(After(decodes, events).ops), rounds)
    ensures forall id: Uint64 | 1 <= id <= k :: Settled(decodes, events + more, id)
  {
    more := RestartAndRounds(decodes, events, rounds);
    ReachableDrainable(decodes, events);
    TicksEmptyTheQueue(decodes, Run(After(decodes, events).ops), k, rounds);
    UnreadableIsSettled(decodes, events + more, k);
  }

  // ----- How ticks become useful -----

  /** Some report up to `k` is due. */
  ghost predicate SomeDue(q: Queue, k: Uint64, nowMs: int) { exists id: Uint64 :: id <= k && Due(q, id, nowMs) }

  /** When some report up to `k` is due, a tick takes one of these reports first. */
  lemma DueTickLeases(q: Queue, k: Uint64, nowMs: int)
    requires SomeDue(q, k, nowMs)
    ensures var ids := LeasedIds(q, BATCH_SIZE, nowMs); ids != [] && ids[0] <= k
  {
    var ids := LeasedIds(q, BATCH_SIZE, nowMs);
    var id: Uint64 :| id <= k && Due(q, id, nowMs);
    LeasedAreFirst(q, BATCH_SIZE, nowMs, id);
    if id in ids {
      var i :| 0 <= i < |ids| && ids[i] == id;
    } else {
      assert ids[0] in ids;
    }
  }

  predicate FirstCommits(t: TickInput)
    requires FullTick(t)
  {
    t.outcomes[0].fate.Commits?
  }

  /** A tick that commits the settlement of the first report it leases is useful exactly if some report up to `k` is
      due, or none is left. */
  lemma UsefulExactlyWhenDue(q: Queue, k: Uint64, t: TickInput)
    requires FullTick(t) && FirstCommits(t)
    ensures Useful(q, k, t) <==> NothingReadable(q, k) || SomeDue(q, k, t.nowMs)
  {
    var ids := LeasedIds(q, BATCH_SIZE, t.nowMs);
    if SomeDue(q, k, t.nowMs) { DueTickLeases(q, k, t.nowMs); }
    if SomeSettle(q, k, t) {
      var i: nat :| i < |ids| && ids[i] <= k;
      assert ids[i] in ids;
    }
  }

  /** When a report up to `k` is due, a tick of the drain loop takes one of these reports in hand first. */
  lemma DueTickTakesInHand(decodes: Payload -> bool, s: State, nowMs: int, k: Uint64)
    requires Invariant(decodes, s) && NoWrap(s.ops) && s.stage == Working([]) && SomeDue(Run(s.ops), k, nowMs)
    ensures var s' := Next(decodes, s, Tick(nowMs, true)); s'.stage.Working? && s'.stage.batch != []
                                                           && s'.stage.batch[0].id <= k
  {
    InvariantDrainable(decodes, s);
    DueTickLeases(Run(s.ops), k, nowMs);
    LentIds(Run(s.ops), nowMs);
  }

  /** Committing the settlement of the first report in hand, after its push or without one, is progress if this
      report is one of those up to `k`. */
  lemma FirstSettlementProgresses(decodes: Payload -> bool, events: seq<Event>, o: Outcome, k: Uint64)
    requires After(decodes, events).stage.Working? && After(decodes, events).stage.batch != []
    requires After(decodes, events).stage.batch[0].id <= k && o.fate.Commits?
    ensures Progress(decodes, events, ItemEvents(decodes, After(decodes, events).stage.batch[0], o), k) >= 1
  {
    var s := After(decodes, events);
    var more := ItemEvents(decodes, s.stage.batch[0], o);
    var n := |more| - 1;
    assert more[..0] == [] && events + [] == events;
    if n == 1 {
      assert more[..1] == [more[0]];
      AfterSnoc(decodes, events, more[..1]);
    }
    assert Settles(decodes, After(decodes, events + more[..n]), more[n], 0, k + 1);
  }

  lemma FirstCommitTick(q: Queue, k: Uint64, pushOk: seq<bool>) returns (t: TickInput)
    requires |pushOk| == BATCH_SIZE
    ensures FullTick(t) && forall i | 0 <= i < BATCH_SIZE :: t.outcomes[i].pushOk == pushOk[i]
    ensures Useful(q, k, t)
  {
    var nowMs := SomeTimeIsLate(q, q.items.Keys);
    t := TickInput(nowMs, seq(BATCH_SIZE, i requires 0 <= i < BATCH_SIZE => Outcome(pushOk[i], nowMs, Commits)));
    if id: Uint64 :| id <= k && NackFinds(q, id) { assert Due(q, id, nowMs); }
    UsefulExactlyWhenDue(q, k, t);
  }

  lemma {:induction false} SomeTimeIsLate(q: Queue, ids: set<Uint64>) returns (nowMs: int)
    requires ids <= q.items.Keys
    ensures forall id | id in ids && NackFinds(q, id) :: Due(q, id, nowMs)
    decreases |ids|
  {
    if ids == {} { return 0; }
    var id :| id in ids;
    var rest := SomeTimeIsLate(q, ids - {id});
    nowMs := rest;
    if NackFinds(q, id) {
      var it := q.items[id].item;
      if nowMs < it.notBeforeMs { nowMs := it.notBeforeMs; }
      if nowMs < it.leaseUntilMs { nowMs := it.leaseUntilMs; }
    }
    forall other | other in ids && NackFinds(q, other) ensures Due(q, other, nowMs) {
      assert other == id || other in ids - {id};
    }
  }

  /** What the outside world does in one round: which reports arrive, and which pushes succeed. */
  datatype Plan = Plan(arrivals: seq<Arrival>, pushOk: seq<bool>)

  /** Useful ticks can follow any queue, whatever arrives and whichever pushes fail. */
  lemma {:induction false} UsefulTicksExist(decodes: Payload -> bool, q: Queue, k: Uint64, plans: seq<Plan>)
    returns (rounds: seq<Round>)
    requires forall i | 0 <= i < |plans| :: |plans[i].pushOk| == BATCH_SIZE
    ensures |rounds| == |plans| && forall r | r in rounds :: FullTick(r.tick)
    ensures forall i | 0 <= i < |rounds| ::
              && rounds[i].arrivals == plans[i].arrivals && FullTick(rounds[i].tick)
              && forall j | 0 <= j < BATCH_SIZE :: rounds[i].tick.outcomes[j].pushOk == plans[i].pushOk[j]
    ensures UsefulTicks(decodes, q, k, rounds) == |plans|
    decreases |plans|
  {
    if plans == [] { return []; }
    var q1 := AfterArrivals(q, plans[0].arrivals);
    var t := FirstCommitTick(q1, k, plans[0].pushOk);
    var rest := UsefulTicksExist(decodes, AfterTick(decodes, q1, t), k, plans[1..]);
    rounds := [Round(plans[0].arrivals, t)] + rest;
    assert rounds[1..] == rest;
  }

  // ----- The loop's own schedule: a tick every three seconds -----

  const TICK_MS := 3000

  /** No report up to `k` waits longer than until `t`. */
  ghost predicate AllDue(q: Queue, k: Uint64, t: int) {
    forall id: Uint64 | id <= k && NackFinds(q, id) :: Due(q, id, t)
  }

  lemma LeaseKeepsDue(q: Queue, k: Uint64, nowMs: int, t: int)
    requires AllDue(q, k, t) && nowMs + LEASE_MS <= t
    ensures AllDue(AfterLease(q, BATCH_SIZE, LEASE_MS, nowMs), k, t)
  {
    var q' := AfterLease(q, BATCH_SIZE, LEASE_MS, nowMs);
    forall id: Uint64 | id <= k && NackFinds(q', id) ensures Due(q', id, t) {
      assert NackFinds(q, id);
      LeasedIsDue(q, BATCH_SIZE, LEASE_MS, nowMs, id, t);
    }
  }

  lemma SettlementKeepsDue(q: Queue, k: Uint64, op: Op, t: int)
    requires AllDue(q, k, t) && 0 <= t && OwnOp(op)
    requires op.Ack? || (op.Nack? && op.nowMs + BACKOFF_MS <= t)
    ensures AllDue(Apply(q, op), k, t)
  {
    forall id: Uint64 | id <= k && NackFinds(Apply(q, op), id) ensures Due(Apply(q, op), id, t) {
      assert NackFinds(q, id);
    }
  }

  lemma EnqueueKeepsDue(q: Queue, k: Uint64, payload: Payload, nowMs: int, t: int)
    requires AllDue(q, k, t) && 0 <= t && nowMs <= t
    ensures AllDue(AfterEnqueue(q, payload, nowMs), k, t)
  {
    var q' := AfterEnqueue(q, payload, nowMs);
    forall id: Uint64 | id <= k && NackFinds(q', id) ensures Due(q', id, t) {
      assert id != q'.last ==> NackFinds(q, id);
    }
  }

  lemma DamageKeepsDue(q: Queue, k: Uint64, id: Uint64, t: int)
    requires AllDue(q, k, t)
    ensures AllDue(Apply(q, Damage(id)), k, t)
  {
    var q' := Apply(q, Damage(id));
    forall other: Uint64 | other <= k && NackFinds(q', other) ensures Due(q', other, t) {
      assert NackFinds(q, other);
    }
  }

  /** A minute after every clock reading of the run so far, every report is due. */
  lemma {:induction false} DueWithinAMinute(ops: seq<Op>, k: Uint64, t: int)
    requires OwnOps(ops) && t >= 60_000
    requires ReadBy(ops, t - 60_000)
    ensures AllDue(Run(ops), k, t)
  {
    if ops != [] {
      var op := Last(ops);
      DueWithinAMinute(Init(ops), k, t);
      assert op == ops[|ops| - 1] && OwnOp(op);
      match op
      case Lease(_, _, nowMs) => LeaseKeepsDue(Run(Init(ops)), k, nowMs, t);
      case Ack(_) => SettlementKeepsDue(Run(Init(ops)), k, op, t);
      case Nack(_, _, _, _) => SettlementKeepsDue(Run(Init(ops)), k, op, t);
      case Enqueue(payload, nowMs) => EnqueueKeepsDue(Run(Init(ops)), k, payload, nowMs, t);
      case Damage(id) => DamageKeepsDue(Run(Init(ops)), k, id, t);
    }
  }

  /** All clocks read in a round have read no more than `t`. */
  predicate OverBy(r: Round, t: int) {
    r.tick.nowMs <= t && forall o | o in r.tick.outcomes :: o.nowMs <= t
  }

  /** A tick every three seconds or more, each commits the first settlement it makes, and is over by the next. */
  predicate OnSchedule(rounds: seq<Round>) {
    && (forall r | r in rounds :: FullTick(r.tick) && FirstCommits(r.tick) && r.tick.nowMs >= 0)
    && forall i | 0 <= i < |rounds| - 1 ::
         && OverBy(rounds[i], rounds[i + 1].tick.nowMs)
         && rounds[i].tick.nowMs + TICK_MS <= rounds[i + 1].tick.nowMs
  }

  lemma {:induction false} BatchKeepsDue(
      decodes: Payload -> bool, q: Queue, k: Uint64, items: seq<Item>, outcomes: seq<Outcome>, t: int)
    requires |items| <= |outcomes| && AllDue(q, k, t) && 0 <= t
    requires forall o | o in outcomes :: o.nowMs + BACKOFF_MS <= t
    ensures AllDue(SettleAll(decodes, q, items, outcomes), k, t)
  {
    if items != [] {
      var n := |items| - 1;
      BatchKeepsDue(decodes, q, k, items[..n], outcomes, t);
      assert outcomes[n] in outcomes;
      SettlementKeepsDue(SettleAll(decodes, q, items[..n], outcomes), k, SettledBy(decodes, items[n], outcomes[n]), t);
    }
  }

  lemma TickKeepsDue(decodes: Payload -> bool, q: Queue, k: Uint64, t: TickInput, late: int)
    requires FullTick(t) && AllDue(q, k, late) && 0 <= t.nowMs && t.nowMs + LEASE_MS <= late
    requires forall o | o in t.outcomes :: o.nowMs + BACKOFF_MS <= late
    ensures AllDue(AfterTick(decodes, q, t), k, late)
  {
    LeaseKeepsDue(q, k, t.nowMs, late);
    BatchKeepsDue(decodes, AfterLease(q, BATCH_SIZE, LEASE_MS, t.nowMs), k,
                  LeaseResult(q, BATCH_SIZE, LEASE_MS, t.nowMs), t.outcomes, late);
  }

  lemma {:induction false} BatchSpares(
      decodes: Payload -> bool, q: Queue, k: Uint64, items: seq<Item>, outcomes: seq<Outcome>)
    requires |items| <= |outcomes| && forall it | it in items :: it.id > k
    ensures SameUpTo(q, SettleAll(decodes, q, items, outcomes), k)
  {
    if items != [] {
      var n := |items| - 1;
      assert items[n] in items && forall it | it in items[..n] :: it in items;
      BatchSpares(decodes, q, k, items[..n], outcomes);
    }
  }

  /** A tick that takes no report up to `k` leaves them all alone. */
  lemma IdleTick(decodes: Payload -> bool, q: Queue, k: Uint64, t: TickInput)
    requires Drainable(q) && FullTick(t) && !SomeDue(q, k, t.nowMs)
    ensures SameUpTo(q, AfterTick(decodes, q, t), k)
  {
    var ids := LeasedIds(q, BATCH_SIZE, t.nowMs);
    var items := LeaseResult(q, BATCH_SIZE, LEASE_MS, t.nowMs);
    LentIds(q, t.nowMs);
    forall id | id in ids ensures id > k { assert Due(q, id, t.nowMs); }
    forall it | it in items ensures it.id > k {
      var i :| 0 <= i < |items| && items[i] == it;
      assert ids[i] in ids;
    }
    BatchSpares(decodes, AfterLease(q, BATCH_SIZE, LEASE_MS, t.nowMs), k, items, t.outcomes);
  }

  lemma SameIsAsDue(q: Queue, q': Queue, k: Uint64, t: int)
    requires SameUpTo(q, q', k)
    ensures AllDue(q', k, t) <==> AllDue(q, k, t)
    ensures SomeDue(q', k, t) <==> SomeDue(q, k, t)
    ensures NothingReadable(q', k) <==> NothingReadable(q, k)
  {
    forall id: Uint64 | id <= k ensures NackFinds(q', id) <==> NackFinds(q, id) {}
    forall id: Uint64 | id <= k ensures Due(q', id, t) <==> Due(q, id, t) {}
  }

  lemma AllDueLater(q: Queue, k: Uint64, t: int, later: int)
    requires AllDue(q, k, t) && t <= later
    ensures AllDue(q, k, later)
  {
  }

  /** The longest wait after a tick is a lease of a minute, which is twenty ticks; so of any 21 ticks on schedule one
      is useful.  `wait` bounds how many of the next ticks come before every report up to `k` is due. */
  lemma {:induction false} ScheduleIsUseful(
      decodes: Payload -> bool, q: Queue, k: Uint64, rounds: seq<Round>, late: int, wait: nat)
    requires Drainable(q) && k <= q.last && q.last + Arrivals(rounds) < TWO_64 && OnSchedule(rounds)
    requires AllDue(q, k, late)
    requires rounds != [] ==> late <= rounds[0].tick.nowMs + TICK_MS * wait && wait <= 20
    ensures |rounds| <= 21 * UsefulTicks(decodes, q, k, rounds) + wait
    decreases |rounds|
  {
    if rounds != [] {
      var r, rest := rounds[0], rounds[1..];
      var q1, q' := AfterArrivals(q, r.arrivals), AfterRound(decodes, q, r);
      ArrivalsComeLater(q, r.arrivals, k);
      SameIsAsDue(q, q1, k, late);
      RoundSpends(decodes, q, k, r);
      ScheduleGoesOn(rounds);
      UsefulExactlyWhenDue(q1, k, r.tick);
      if Useful(q1, k, r.tick) {
        var next := if rest == [] then late else rest[0].tick.nowMs + LEASE_MS;
        if rest != [] {
          AllDueLater(q1, k, late, next);
          TickKeepsDue(decodes, q1, k, r.tick, next);
          ScheduleIsUseful(decodes, q', k, rest, next, 20);
        }
      } else {
        assert wait > 0 by { if wait == 0 { NowDue(q1, k, late, r.tick.nowMs); } }
        IdleTick(decodes, q1, k, r.tick);
        SameIsAsDue(q1, q', k, late);
        ScheduleIsUseful(decodes, q', k, rest, late, wait - 1);
      }
    }
  }

  lemma ScheduleGoesOn(rounds: seq<Round>)
    requires OnSchedule(rounds) && rounds != []
    ensures OnSchedule(rounds[1..])
    ensures |rounds| > 1 ==> OverBy(rounds[0], rounds[1].tick.nowMs)
                             && rounds[0].tick.nowMs + TICK_MS <= rounds[1].tick.nowMs
  {
    var rest := rounds[1..];
    assert forall i | 0 <= i < |rest| :: rest[i] == rounds[i + 1];
  }

  lemma NowDue(q: Queue, k: Uint64, late: int, nowMs: int)
    requires AllDue(q, k, late) && late <= nowMs && !NothingReadable(q, k)
    ensures SomeDue(q, k, nowMs)
  {
    var id: Uint64 :| id <= k && NackFinds(q, id);
    assert Due(q, id, late);
    assert Due(q, id, nowMs);
  }

  /** All clock readings of a run are no later than `t`. */
  predicate ReadBy(ops: seq<Op>, t: int) {
    forall i | 0 <= i < |ops| && (ops[i].Enqueue? || ops[i].Lease? || ops[i].Nack?) :: ops[i].nowMs <= t
  }

  lemma ScheduleIsEnough(decodes: Payload -> bool, events: seq<Event>, k: Uint64, rounds: seq<Round>)
    requires Enqueues(After(decodes, events).ops) + Arrivals(rounds) < TWO_64
    requires 1 <= k <= Enqueues(After(decodes, events).ops)
    requires OnSchedule(rounds) && |rounds| >= 21 * MAX_ATTEMPTS * k
    requires ReadBy(After(decodes, events).ops, rounds[0].tick.nowMs)
    ensures var q := Run(After(decodes, events).ops); UsefulTicks(decodes, q, k, rounds) >= Budget(q, 0, k + 1)
  {
    var ops, late := After(decodes, events).ops, rounds[0].tick.nowMs + LEASE_MS;
    InvariantHolds(decodes, events);
    InvariantDrainable(decodes, After(decodes, events));
    EntriesKeepIdentity(ops);
    assert rounds[0] in rounds;
    DueWithinAMinute(ops, k, late);
    TwentyPerReport(decodes, events, k);
    ScheduleEmpties(decodes, Run(ops), k, rounds);
  }

  lemma ScheduleEmpties(decodes: Payload -> bool, q: Queue, k: Uint64, rounds: seq<Round>)
    requires Drainable(q) && k <= q.last && q.last + Arrivals(rounds) < TWO_64
    requires OnSchedule(rounds) && rounds != [] && AllDue(q, k, rounds[0].tick.nowMs + LEASE_MS)
    requires Budget(q, 0, k + 1) <= MAX_ATTEMPTS * k && |rounds| >= 21 * MAX_ATTEMPTS * k
    ensures UsefulTicks(decodes, q, k, rounds) >= Budget(q, 0, k + 1)
  {
    ScheduleIsUseful(decodes, q, k, rounds, rounds[0].tick.nowMs + LEASE_MS, 20);
    EnoughTicks(|rounds|, UsefulTicks(decodes, q, k, rounds), Budget(q, 0, k + 1), k);
  }

  lemma EnoughTicks(ticks: nat, useful: nat, budget: nat, k: nat)
    requires ticks <= 21 * useful + 20 && ticks >= 21 * MAX_ATTEMPTS * k && budget <= MAX_ATTEMPTS * k
    ensures useful >= budget
  {
  }

  /** From any point of any run: a restart and ticks on schedule, 420 for each report up to `k`, settle all of these,
      however pushes fail, whatever other transactions are lost, and however many new reports arrive meanwhile. */
  lemma ScheduleSettlesEveryReport(decodes: Payload -> bool, events: seq<Event>, k: Uint64, rounds: seq<Round>)
    returns (more: seq<Event>)
    requires Enqueues(After(decodes, events).ops) + Arrivals(rounds) < TWO_64
    requires 1 <= k <= Enqueues(After(decodes, events).ops)
    requires OnSchedule(rounds) && |rounds| >= 21 * MAX_ATTEMPTS * k
    requires ReadBy(After(decodes, events).ops, rounds[0].tick.nowMs)
    ensures Run(After(decodes, events + more).ops) == AfterRounds(decodes, Run(After(decodes, events).ops), rounds)
    ensures forall id: Uint64 | 1 <= id <= k :: Settled(decodes, events + more, id)
  {
    ScheduleIsEnough(decodes, events, k, rounds);
    more := TicksSettleEveryReport(decodes, events, k, rounds);
  }

  // ----- The bound of twenty is exact -----

  /** A queue with a single report, which has failed `attempts` times. */
  ghost predicate Lone(q: Queue, id: Uint64, payload: Payload, attempts: nat) {
    && q.items.Keys == {id} && NackFinds(q, id)
    && q.items[id].item.id == id && q.items[id].item.payload == payload && q.items[id].item.attempts == attempts
  }

  /** No new report arrives, every transaction commits and every push fails. */
  predicate AllFail(r: Round) {
    r.arrivals == [] && forall o | o in r.tick.outcomes :: o.fate.Commits? && !o.pushOk
  }

  lemma AscendingIsSingle(ids: seq<Uint64>, id: Uint64)
    requires ids != [] && Ascending(ids) && forall i | 0 <= i < |ids| :: ids[i] == id
    ensures ids == [id]
  {
    assert ids[0] == ids[|ids| - 1];
  }

  lemma UndueTick(decodes: Payload -> bool, q: Queue, t: TickInput)
    requires FullTick(t) && forall id: Uint64 :: !Due(q, id, t.nowMs)
    ensures AfterTick(decodes, q, t) == q
  {
    DueBelowGap(q, t.nowMs, 0, TWO_64);
    assert AfterLease(q, BATCH_SIZE, LEASE_MS, t.nowMs).items == q.items;
  }

  /** A tick whose push fails adds one attempt to a lone report that is due, or removes it if that was the 20th. */
  lemma LoneTick(decodes: Payload -> bool, q: Queue, r: Round, id: Uint64, payload: Payload, attempts: nat)
    requires Lone(q, id, payload, attempts) && attempts < MAX_ATTEMPTS && decodes(payload)
    requires FullTick(r.tick) && AllFail(r) && Due(q, id, r.tick.nowMs)
    ensures if attempts + 1 < MAX_ATTEMPTS then Lone(AfterRound(decodes, q, r), id, payload, attempts + 1)
            else AfterRound(decodes, q, r).items == map[]
  {
    var t := r.tick;
    var ids := LeasedIds(q, BATCH_SIZE, t.nowMs);
    assert SomeDue(q, id, t.nowMs);
    DueTickLeases(q, id, t.nowMs);
    forall i | 0 <= i < |ids| ensures ids[i] == id {
      assert ids[i] in ids && ids[i] in q.items.Keys;
    }
    AscendingIsSingle(ids, id);
    var items := LeaseResult(q, BATCH_SIZE, LEASE_MS, t.nowMs);
    var lent := AfterLease(q, BATCH_SIZE, LEASE_MS, t.nowMs);
    assert Lone(lent, id, payload, attempts);
    assert |items| == 1 && items[..0] == [] && t.outcomes[0] in t.outcomes;
    assert SettleAll(decodes, lent, items[..0], t.outcomes) == lent;
    assert SettleAll(decodes, lent, items, t.outcomes) == SettleItem(decodes, lent, items[0], t.outcomes[0]);
  }

  /** A lone report that always fails has, after any ticks, as many more attempts as ticks were useful, and is gone
      with the 20th, not before. */
  lemma {:induction false} TwentyFailuresAndNoFewer(
      decodes: Payload -> bool, q: Queue, rounds: seq<Round>, id: Uint64, payload: Payload, attempts: nat)
    requires if attempts < MAX_ATTEMPTS then Lone(q, id, payload, attempts) else q.items == map[]
    requires decodes(payload) && forall r | r in rounds :: FullTick(r.tick) && AllFail(r)
    ensures var all := attempts + UsefulTicks(decodes, q, id, rounds);
            if all < MAX_ATTEMPTS then Lone(AfterRounds(decodes, q, rounds), id, payload, all)
            else AfterRounds(decodes, q, rounds).items == map[]
    decreases |rounds|
  {
    if rounds != [] {
      var r, q' := rounds[0], AfterRound(decodes, q, rounds[0]);
      assert r in rounds && r.tick.outcomes[0] in r.tick.outcomes;
      UsefulExactlyWhenDue(q, id, r.tick);
      if q.items == map[] {
        UndueTick(decodes, q, r.tick);
        TwentyFailuresAndNoFewer(decodes, q', rounds[1..], id, payload, attempts + 1);
      } else if Due(q, id, r.tick.nowMs) {
        LoneTick(decodes, q, r, id, payload, attempts);
        TwentyFailuresAndNoFewer(decodes, q', rounds[1..], id, payload, attempts + 1);
      } else {
        forall other: Uint64 ensures !Due(q, other, r.tick.nowMs) { assert other in q.items ==> other in {id}; }
        UndueTick(decodes, q, r.tick);
        TwentyFailuresAndNoFewer(decodes, q', rounds[1..], id, payload, attempts);
      }
    }
  }
}
