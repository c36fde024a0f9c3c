/** Whole runs of one durable queue: any sequence of committed operations, issued by any number of
    producers and consumers with any arguments and any clock readings, across any number of restarts.
    A rolled-back transaction and a restart leave the queue as it was, so neither shows up in a run. */
module QueueRuns {
  import opened Common
  import opened QueueModel

  datatype Op =
    | Enqueue(payload: Payload, nowMs: int)
    | Lease(max: int, leaseMs: int, nowMs: int)
    | Ack(id: Uint64)
    | Nack(id: Uint64, backoffMs: int, nowMs: int, maxAttempts: int)
    | Damage(id: Uint64)  // the stored value of an entry stops being readable

  ghost function Apply(q: Queue, op: Op): Queue {
    match op
    case Enqueue(payload, nowMs) => AfterEnqueue(q, payload, nowMs)
    case Lease(max, leaseMs, nowMs) => AfterLease(q, max, leaseMs, nowMs)
    case Ack(id) => AfterAck(q, id)
    case Nack(id, backoffMs, nowMs, maxAttempts) => AfterNack(q, id, backoffMs, nowMs, maxAttempts)
    case Damage(id) => if id in q.items then q.(items := q.items[id := Unreadable]) else q
  }

  function Init(ops: seq<Op>): seq<Op> requires ops != [] { ops[..|ops| - 1] }

  function Last(ops: seq<Op>): Op requires ops != [] { ops[|ops| - 1] }

  /** The queue after a run that started with no queue at all. */
  ghost function Run(ops: seq<Op>): Queue {
    if ops == [] then EMPTY else Apply(Run(Init(ops)), Last(ops))
  }

  // ----- What a reader can count in a run -----

  function Enqueues(ops: seq<Op>): nat {
    if ops == [] then 0 else Enqueues(Init(ops)) + if Last(ops).Enqueue? then 1 else 0
  }

  /** No sequence counter wraps during the run. */
  predicate NoWrap(ops: seq<Op>) { Enqueues(ops) < TWO_64 }

  lemma Snoc(ops: seq<Op>, op: Op)
    ensures Init(ops + [op]) == ops && Last(ops + [op]) == op
    ensures Run(ops + [op]) == Apply(Run(ops), op)
    ensures Enqueues(ops + [op]) == Enqueues(ops) + if op.Enqueue? then 1 else 0
  {
    assert Init(ops + [op]) == ops;
  }

  /** The `n`-th enqueue of the run, counted from 1. */
  function NthEnqueue(ops: seq<Op>, n: nat): (op: Op)
    requires 1 <= n <= Enqueues(ops)
    ensures op.Enqueue?
  {
    if Last(ops).Enqueue? && n == Enqueues(ops) then Last(ops) else NthEnqueue(Init(ops), n)
  }

  /** Operation `op`, applied to `q`, is a nack of `id` that finds its entry. */
  predicate Nacks(q: Queue, op: Op, id: Uint64) { op.Nack? && op.id == id && NackFinds(q, id) }

  ghost predicate Leases(q: Queue, op: Op, id: Uint64) {
    op.Lease? && id in LeasedIds(q, op.max, op.nowMs)
  }

  ghost function NackCount(ops: seq<Op>, id: Uint64): nat {
    if ops == [] then 0
    else NackCount(Init(ops), id) + if Nacks(Run(Init(ops)), Last(ops), id) then 1 else 0
  }

  /** How the life of an id can stand. */
  datatype Fate = Unborn | Live | Acked | Exhausted

  ghost function FateOf(ops: seq<Op>, id: Uint64): Fate {
    if ops == [] then Unborn
    else
      var q, op, fate := Run(Init(ops)), Last(ops), FateOf(Init(ops), id);
      if op.Enqueue? && id == Bump(q.last) then Live
      else if op.Ack? && op.id == id && id in q.items then Acked
      else if op.Nack? && op.id == id && NackExhausts(q, id, op.maxAttempts) then Exhausted
      else fate
  }

  ghost function AckedCount(ops: seq<Op>): nat {
    if ops == [] then 0
    else AckedCount(Init(ops)) + if Last(ops).Ack? && Last(ops).id in Run(Init(ops)).items then 1 else 0
  }

  ghost function ExhaustedCount(ops: seq<Op>): nat {
    if ops == [] then 0
    else ExhaustedCount(Init(ops))
         + if Last(ops).Nack? && NackExhausts(Run(Init(ops)), Last(ops).id, Last(ops).maxAttempts) then 1 else 0
  }

  // ----- Identity -----

  /** The sequence counter is the number of enqueues, modulo its 64 bits. */
  lemma {:induction false} SequenceCountsEnqueues(ops: seq<Op>)
    ensures Run(ops).last == Enqueues(ops) % TWO_64
  {
    if ops != [] { SequenceCountsEnqueues(Init(ops)); }
  }

  lemma NextIdIsNew(ops: seq<Op>)
    requires Enqueues(ops) + 1 < TWO_64
    ensures Bump(Run(ops).last) == Enqueues(ops) + 1
  {
    SequenceCountsEnqueues(ops);
  }

  /** Below 2^64 enqueues, entries have the ids 1, 2, 3, ... in order of enqueueing, under which they
      keep for life the payload and the enqueue time they were given. */
  lemma {:induction false} EntriesKeepIdentity(ops: seq<Op>)
    requires NoWrap(ops)
    ensures Run(ops).last == Enqueues(ops)
    ensures forall id | id in Run(ops).items :: 1 <= id <= Enqueues(ops)
    ensures forall id: Uint64 | NackFinds(Run(ops), id) ::
              var it := Run(ops).items[id].item;
              it.id == id && it.payload == NthEnqueue(ops, id).payload && it.enqueuedMs == NthEnqueue(ops, id).nowMs
  {
    if ops != [] {
      var q, q' := Run(Init(ops)), Run(ops);
      EntriesKeepIdentity(Init(ops));
      forall id: Uint64 | NackFinds(q', id)
        ensures var it := q'.items[id].item;
                it.id == id && it.payload == NthEnqueue(ops, id).payload && it.enqueuedMs == NthEnqueue(ops, id).nowMs
      {
        if !(Last(ops).Enqueue? && id == q'.last) {
          assert NackFinds(q, id);
        }
      }
    }
  }

  /** A lease hands out, under each id, exactly the payload that was enqueued under it. */
  lemma LeaseReturnsWhatWasEnqueued(ops: seq<Op>, max: int, leaseMs: int, nowMs: int, it: Item)
    requires NoWrap(ops) && it in LeaseResult(Run(ops), max, leaseMs, nowMs)
    ensures 1 <= it.id <= Enqueues(ops)
    ensures it.payload == NthEnqueue(ops, it.id).payload
    ensures NackFinds(Run(ops), it.id)
    ensures it == Run(ops).items[it.id].item.(leaseUntilMs := nowMs + leaseMs)
  {
    EntriesKeepIdentity(ops);
    var ids := LeasedIds(Run(ops), max, nowMs);
    var i :| 0 <= i < |ids| && LeaseResult(Run(ops), max, leaseMs, nowMs)[i] == it;
    assert ids[i] in ids;
    assert NackFinds(Run(ops), ids[i]);
  }

  /** The fate of an id tells whether it is in the queue; only ids not yet handed out are unborn. */
  lemma {:induction false} FateIsPresence(ops: seq<Op>, id: Uint64)
    requires NoWrap(ops)
    ensures FateOf(ops, id).Live? <==> id in Run(ops).items
    ensures FateOf(ops, id).Unborn? <==> id == 0 || id > Enqueues(ops)
  {
    if ops != [] {
      FateIsPresence(Init(ops), id);
      EntriesKeepIdentity(Init(ops));
    }
  }

  /** A removed entry never comes back and its fate never changes, whatever late acks, nacks and leases follow. */
  lemma {:induction false} RemovalIsFinal(ops: seq<Op>, more: seq<Op>, id: Uint64)
    requires NoWrap(ops + more)
    requires FateOf(ops, id).Acked? || FateOf(ops, id).Exhausted?
    ensures FateOf(ops + more, id) == FateOf(ops, id)
    ensures id !in Run(ops + more).items
  {
    if more == [] {
      assert ops + more == ops;
    } else {
      assert Init(ops + more) == ops + Init(more);
      RemovalIsFinal(ops, Init(more), id);
      EntriesKeepIdentity(ops + Init(more));
      FateIsPresence(ops + Init(more), id);
    }
    FateIsPresence(ops + more, id);
  }

  lemma LeaseKeepsSize(q: Queue, max: int, leaseMs: int, nowMs: int)
    ensures AfterLease(q, max, leaseMs, nowMs).items.Keys == q.items.Keys
    ensures |AfterLease(q, max, leaseMs, nowMs).items| == |q.items|
  {
    var after := AfterLease(q, max, leaseMs, nowMs).items;
    assert after.Keys == q.items.Keys;
    assert |after| == |after.Keys| && |q.items| == |q.items.Keys|;
  }

  /** Conservation: every enqueued entry is still there, was acked while there, or ran out of attempts. */
  lemma {:induction false} DepthIsConserved(ops: seq<Op>)
    requires NoWrap(ops)
    ensures |Run(ops).items| + AckedCount(ops) + ExhaustedCount(ops) == Enqueues(ops)
  {
    if ops != [] {
      DepthIsConserved(Init(ops));
      EntriesKeepIdentity(Init(ops));
      DepthStep(Run(Init(ops)), Last(ops));
    }
  }

  lemma DepthStep(q: Queue, op: Op)
    requires op.Enqueue? ==> Bump(q.last) !in q.items
    ensures |Apply(q, op).items| + (if op.Ack? && op.id in q.items then 1 else 0)
              + (if op.Nack? && NackExhausts(q, op.id, op.maxAttempts) then 1 else 0)
         == |q.items| + if op.Enqueue? then 1 else 0
  {
    match op
    case Enqueue(_, _) =>
    case Lease(max, leaseMs, nowMs) => LeaseKeepsSize(q, max, leaseMs, nowMs);
    case Ack(id) => RemovalSize(q.items, id);
    case Nack(id, _, _, _) => RemovalSize(q.items, id);
    case Damage(_) =>
  }

  lemma RemovalSize(m: map<Uint64, Stored>, id: Uint64)
    ensures |m - {id}| == |m| - if id in m then 1 else 0
  {
    if id in m {
      assert m == (m - {id})[id := m[id]];
    } else {
      assert m - {id} == m;
    }
  }

  // ----- Attempts -----

  /** A readable entry's attempts are the nacks that reached it; leases and their expiry never count. */
  lemma {:induction false} AttemptsAreNacks(ops: seq<Op>, id: Uint64)
    requires NoWrap(ops)
    ensures id > Enqueues(ops) ==> NackCount(ops, id) == 0
    ensures NackFinds(Run(ops), id) ==> Run(ops).items[id].item.attempts == NackCount(ops, id)
  {
    if ops != [] {
      AttemptsAreNacks(Init(ops), id);
      EntriesKeepIdentity(Init(ops));
      if Last(ops).Enqueue? && id == Bump(Run(Init(ops)).last) {
        assert NackCount(Init(ops), id) == 0;
      } else if NackFinds(Run(ops), id) {
        assert NackFinds(Run(Init(ops)), id);
      }
    }
  }

  /** Every nack of `id` in the run allows `limit` attempts. */
  predicate NackLimit(ops: seq<Op>, id: Uint64, limit: int) {
    forall i | 0 <= i < |ops| && ops[i].Nack? && ops[i].id == id :: ops[i].maxAttempts == limit
  }

  /** With one positive limit for all nacks, an entry is exhausted exactly by its `limit`-th nack. */
  lemma {:induction false} LimitIsExact(ops: seq<Op>, id: Uint64, limit: int)
    requires NoWrap(ops) && limit > 0 && NackLimit(ops, id, limit)
    ensures NackCount(ops, id) <= limit
    ensures NackCount(ops, id) == limit <==> FateOf(ops, id).Exhausted?
  {
    if ops != [] {
      var q := Run(Init(ops));
      assert NackLimit(Init(ops), id, limit) by {
        forall i | 0 <= i < |ops| - 1 && ops[i].Nack? && ops[i].id == id ensures ops[i].maxAttempts == limit {
          assert Init(ops)[i] == ops[i];
        }
      }
      LimitIsExact(Init(ops), id, limit);
      EntriesKeepIdentity(Init(ops));
      FateIsPresence(Init(ops), id);
      AttemptsAreNacks(Init(ops), id);
      if Last(ops).Nack? && Last(ops).id == id {
        assert ops[|ops| - 1].maxAttempts == limit;
      }
    }
  }

  /** Without a positive limit no number of nacks removes an entry. */
  lemma {:induction false} NoLimitNeverExhausts(ops: seq<Op>, id: Uint64)
    requires forall i | 0 <= i < |ops| && ops[i].Nack? && ops[i].id == id :: ops[i].maxAttempts <= 0
    ensures !FateOf(ops, id).Exhausted?
  {
    if ops != [] {
      forall i | 0 <= i < |Init(ops)| && Init(ops)[i].Nack? && Init(ops)[i].id == id
        ensures Init(ops)[i].maxAttempts <= 0
      {
        assert ops[i] == Init(ops)[i];
      }
      NoLimitNeverExhausts(Init(ops), id);
      assert Last(ops) == ops[|ops| - 1];
    }
  }

  // ----- Lease exclusivity -----

  ghost predicate LeasesAt(ops: seq<Op>, i: nat, id: Uint64) { i < |ops| && Leases(Run(ops[..i]), ops[i], id) }

  ghost predicate NacksAt(ops: seq<Op>, i: nat, id: Uint64) { i < |ops| && Nacks(Run(ops[..i]), ops[i], id) }

  /** No nack reaches `id` in positions `from` up to, not including, `to`. */
  ghost predicate NoNackBetween(ops: seq<Op>, from: nat, to: nat, id: Uint64) {
    forall i | from <= i < to :: !NacksAt(ops, i, id)
  }

  /** No lease that takes `id` is for a negative time. */
  ghost predicate NonNegativeLeases(ops: seq<Op>, id: Uint64) {
    forall i: nat | LeasesAt(ops, i, id) :: ops[i].leaseMs >= 0
  }

  lemma RunStep(ops: seq<Op>, i: nat)
    requires i < |ops|
    ensures Run(ops[..i + 1]) == Apply(Run(ops[..i]), ops[i])
  {
    assert Init(ops[..i + 1]) == ops[..i];
  }

  lemma {:induction false} EnqueuesMonotone(ops: seq<Op>, i: nat)
    requires i <= |ops|
    ensures Enqueues(ops[..i]) <= Enqueues(ops)
  {
    if i == |ops| {
      assert ops[..i] == ops;
    } else {
      EnqueuesMonotone(Init(ops), i);
      assert Init(ops)[..i] == ops[..i];
    }
  }

  /** One operation on a readable entry that is not a nack of it leaves it readable only with its
      not-before time unchanged, and with its lease either unchanged or renewed by a due lease. */
  lemma EntryStep(ops: seq<Op>, i: nat, id: Uint64)
    requires i < |ops| && NoWrap(ops)
    requires 1 <= id <= Enqueues(ops[..i])
    requires NackFinds(Run(ops[..i + 1]), id) && !NacksAt(ops, i, id)
    ensures NackFinds(Run(ops[..i]), id)
    ensures var old_, new_ := Run(ops[..i]).items[id].item, Run(ops[..i + 1]).items[id].item;
            if LeasesAt(ops, i, id)
            then old_.notBeforeMs <= ops[i].nowMs && old_.leaseUntilMs <= ops[i].nowMs
                 && new_ == old_.(leaseUntilMs := ops[i].nowMs + ops[i].leaseMs)
            else new_ == old_
  {
    RunStep(ops, i);
    EnqueuesMonotone(ops, i);
    EntriesKeepIdentity(ops[..i]);
    EnqueuesMonotone(ops, i + 1);
    assert Init(ops[..i + 1]) == ops[..i];
  }

  /** An id that an operation found in the queue has been enqueued by then. */
  lemma FoundIsEnqueued(ops: seq<Op>, i: nat, j: nat, id: Uint64)
    requires NoWrap(ops) && i <= j <= |ops| && id in Run(ops[..i]).items
    ensures 1 <= id <= Enqueues(ops[..j])
  {
    EnqueuesMonotone(ops, i);
    EntriesKeepIdentity(ops[..i]);
    EnqueuesMonotone(ops[..j], i);
    assert ops[..j][..i] == ops[..i];
  }

  /** After `j` operations, `id` is not readable or is leased until `t` at least. */
  ghost predicate LeasedUntil(ops: seq<Op>, j: nat, id: Uint64, t: int)
    requires j <= |ops|
  {
    NackFinds(Run(ops[..j]), id) ==> Run(ops[..j]).items[id].item.leaseUntilMs >= t
  }

  lemma LeaseSetsDeadline(ops: seq<Op>, i: nat, id: Uint64)
    requires NoWrap(ops) && LeasesAt(ops, i, id)
    ensures LeasedUntil(ops, i + 1, id, ops[i].nowMs + ops[i].leaseMs)
  {
    FoundIsEnqueued(ops, i, i, id);
    if NackFinds(Run(ops[..i + 1]), id) { EntryStep(ops, i, id); }
  }

  /** Any operation but a nack keeps a deadline. */
  lemma DeadlineStep(ops: seq<Op>, k: nat, id: Uint64, t: int)
    requires k < |ops| && NoWrap(ops) && 1 <= id <= Enqueues(ops[..k])
    requires LeasesAt(ops, k, id) ==> ops[k].leaseMs >= 0
    requires !NacksAt(ops, k, id) && LeasedUntil(ops, k, id, t)
    ensures LeasedUntil(ops, k + 1, id, t)
  {
    if NackFinds(Run(ops[..k + 1]), id) { EntryStep(ops, k, id); }
  }

  lemma {:induction false} DeadlineHolds(ops: seq<Op>, i: nat, j: nat, id: Uint64, t: int)
    requires NoWrap(ops) && i <= j <= |ops| && 1 <= id <= Enqueues(ops[..i]) && LeasedUntil(ops, i, id, t)
    requires NonNegativeLeases(ops, id) && NoNackBetween(ops, i, j, id)
    ensures 1 <= id <= Enqueues(ops[..j]) && LeasedUntil(ops, j, id, t)
    decreases j
  {
    if i < j {
      DeadlineHolds(ops, i, j - 1, id, t);
      DeadlineStep(ops, j - 1, id, t);
      EnqueuesMonotone(ops[..j], j - 1);
      assert ops[..j][..j - 1] == ops[..j - 1];
    }
  }

  /** After a lease at position `i`, and until a nack, an entry stays invisible at least as long as that lease. */
  lemma LeaseHolds(ops: seq<Op>, i: nat, j: nat, id: Uint64)
    requires NoWrap(ops) && NonNegativeLeases(ops, id)
    requires i < j <= |ops| && LeasesAt(ops, i, id) && NoNackBetween(ops, i, j, id)
    ensures LeasedUntil(ops, j, id, ops[i].nowMs + ops[i].leaseMs)
  {
    LeaseSetsDeadline(ops, i, id);
    FoundIsEnqueued(ops, i, i + 1, id);
    DeadlineHolds(ops, i + 1, j, id, ops[i].nowMs + ops[i].leaseMs);
  }

  /** Two leases of one entry with no nack between are at least the first lease's duration apart,
      whoever takes them and however clocks read in between. */
  lemma LeasesAreExclusive(ops: seq<Op>, i: nat, j: nat, id: Uint64)
    requires NoWrap(ops) && NonNegativeLeases(ops, id)
    requires i < j && LeasesAt(ops, i, id) && LeasesAt(ops, j, id) && NoNackBetween(ops, i, j, id)
    ensures ops[j].nowMs >= ops[i].nowMs + ops[i].leaseMs
  {
    LeaseHolds(ops, i, j, id);
    assert Due(Run(ops[..j]), id, ops[j].nowMs);
  }

  /** The durations asked for by the leases at positions `at`, added up. */
  function TotalLease(ops: seq<Op>, at: seq<nat>): int
    requires forall k | k in at :: k < |ops| && ops[k].Lease?
  {
    if at == [] then 0
    else assert at[|at| - 1] in at; TotalLease(ops, at[..|at| - 1]) + ops[at[|at| - 1]].leaseMs
  }

  /** The positions `at` are leases of `id`, in order, with no nack of it between the first and the last. */
  ghost predicate LeaseChain(ops: seq<Op>, at: seq<nat>, id: Uint64) {
    && at != []
    && (forall m | 0 <= m < |at| :: LeasesAt(ops, at[m], id))
    && (forall m, n | 0 <= m < n < |at| :: at[m] < at[n])
    && NoNackBetween(ops, at[0], at[|at| - 1], id)
  }

  /** Any number of successive un-nacked leases of one entry, by whatever consumers, are taken no faster than
      their durations add up to. */
  lemma {:induction false} LeasesSpanTheirTotal(ops: seq<Op>, at: seq<nat>, id: Uint64)
    requires NoWrap(ops) && NonNegativeLeases(ops, id) && LeaseChain(ops, at, id)
    ensures ops[at[|at| - 1]].nowMs - ops[at[0]].nowMs >= TotalLease(ops, at[..|at| - 1])
  {
    var n := |at| - 1;
    if n > 0 {
      var before := at[..n];
      assert forall m | 0 <= m < n :: before[m] == at[m];
      assert LeaseChain(ops, before, id);
      LeasesSpanTheirTotal(ops, before, id);
      LeasesAreExclusive(ops, at[n - 1], at[n], id);
    }
  }

  lemma {:induction false} EqualLeasesTotal(ops: seq<Op>, at: seq<nat>, leaseMs: int)
    requires forall k | k in at :: k < |ops| && ops[k].Lease? && ops[k].leaseMs == leaseMs
    ensures TotalLease(ops, at) == |at| * leaseMs
  {
    if at != [] {
      var n := |at| - 1;
      assert at[n] in at && forall k | k in at[..n] :: k in at;
      EqualLeasesTotal(ops, at[..n], leaseMs);
    }
  }

  /** `k` un-nacked leases of one entry, all for `leaseMs`, span at least `(k - 1) * leaseMs`. */
  lemma EqualLeasesSpan(ops: seq<Op>, at: seq<nat>, id: Uint64, leaseMs: int)
    requires NoWrap(ops) && NonNegativeLeases(ops, id) && LeaseChain(ops, at, id)
    requires forall k | k in at :: k < |ops| && ops[k].Lease? && ops[k].leaseMs == leaseMs
    ensures ops[at[|at| - 1]].nowMs - ops[at[0]].nowMs >= (|at| - 1) * leaseMs
  {
    LeasesSpanTheirTotal(ops, at, id);
    assert forall k | k in at[..|at| - 1] :: k in at;
    EqualLeasesTotal(ops, at[..|at| - 1], leaseMs);
  }

  lemma {:induction false} BackoffHolds(ops: seq<Op>, i: nat, j: nat, id: Uint64)
    requires NoWrap(ops) && i < j <= |ops|
    requires NacksAt(ops, i, id) && NoNackBetween(ops, i + 1, j, id)
    ensures NackFinds(Run(ops[..j]), id) ==>
              Run(ops[..j]).items[id].item.notBeforeMs == ops[i].nowMs + ops[i].backoffMs
    decreases j
  {
    FoundIsEnqueued(ops, i, j - 1, id);
    if i == j - 1 {
      RunStep(ops, i);
    } else {
      BackoffHolds(ops, i, j - 1, id);
      if NackFinds(Run(ops[..j]), id) { EntryStep(ops, j - 1, id); }
    }
  }

  /** The first lease after a nack that kept the entry waits out that nack's backoff. */
  lemma LeaseWaitsForBackoff(ops: seq<Op>, i: nat, j: nat, id: Uint64)
    requires NoWrap(ops)
    requires i < j && NacksAt(ops, i, id) && LeasesAt(ops, j, id) && NoNackBetween(ops, i + 1, j, id)
    ensures ops[j].nowMs >= ops[i].nowMs + ops[i].backoffMs
  {
    BackoffHolds(ops, i, j, id);
    assert Due(Run(ops[..j]), id, ops[j].nowMs);
  }

  // ----- When an entry can be leased -----

  function AtLeastZero(t: int): int { if t < 0 then 0 else t }

  /** When a reader of the first `i` operations expects `id` to be available: after its last backoff or lease,
      or from its enqueue time on. */
  ghost function ReadyAt(ops: seq<Op>, i: nat, id: Uint64): int
    requires i <= |ops|
  {
    if i == 0 then 0
    else if LeasesAt(ops, i - 1, id) then ops[i - 1].nowMs + ops[i - 1].leaseMs
    else if NacksAt(ops, i - 1, id) then AtLeastZero(ops[i - 1].nowMs + ops[i - 1].backoffMs)
    else if ops[i - 1].Enqueue? && id == Enqueues(ops[..i]) then AtLeastZero(ops[i - 1].nowMs)
    else ReadyAt(ops, i - 1, id)
  }

  /** A readable entry can be leased exactly from that time on. */
  lemma {:induction false} DueWhenReady(ops: seq<Op>, i: nat, id: Uint64, t: int)
    requires NoWrap(ops) && i <= |ops| && NackFinds(Run(ops[..i]), id)
    requires forall k | 0 <= k < i && LeasesAt(ops, k, id) :: ops[k].leaseMs >= 0
    ensures Due(Run(ops[..i]), id, t) <==> t >= ReadyAt(ops, i, id)
  {
    assert ops[..0] == [];
    var q, op := Run(ops[..i - 1]), ops[i - 1];
    RunStep(ops, i - 1);
    EnqueuesMonotone(ops, i);
    EnqueuesMonotone(ops, i - 1);
    EntriesKeepIdentity(ops[..i]);
    EntriesKeepIdentity(ops[..i - 1]);
    assert Init(ops[..i]) == ops[..i - 1];
    if op.Enqueue? && id == Enqueues(ops[..i]) {
      EnqueuedIsDue(q, op.payload, op.nowMs, t);
    } else {
      if LeasesAt(ops, i - 1, id) {
        LeasedIsDue(q, op.max, op.leaseMs, op.nowMs, id, t);
      } else if NacksAt(ops, i - 1, id) {
        NackedIsDue(q, id, op.backoffMs, op.nowMs, op.maxAttempts, t);
      } else {
        EntryStep(ops, i - 1, id);
        DueWhenReady(ops, i - 1, id, t);
      }
    }
  }

  /** Nothing leases or nacks `id` in positions `from` up to, not including, `to`. */
  ghost predicate Quiet(ops: seq<Op>, from: nat, to: nat, id: Uint64) {
    forall k | from <= k < to :: !LeasesAt(ops, k, id) && !NacksAt(ops, k, id)
  }

  lemma {:induction false} QuietKeepsReadyAt(ops: seq<Op>, from: nat, to: nat, id: Uint64)
    requires from <= to <= |ops| && id <= Enqueues(ops[..from]) && Quiet(ops, from, to, id)
    ensures ReadyAt(ops, to, id) == ReadyAt(ops, from, id)
  {
    if from < to {
      QuietKeepsReadyAt(ops, from, to - 1, id);
      assert Init(ops[..to]) == ops[..to - 1];
      EnqueuesMonotone(ops[..to - 1], from);
      assert ops[..to - 1][..from] == ops[..from];
    }
  }

  lemma {:induction false} NthEnqueueOfPrefix(ops: seq<Op>, i: nat, n: nat)
    requires i <= |ops| && 1 <= n <= Enqueues(ops[..i])
    ensures n <= Enqueues(ops)
    ensures NthEnqueue(ops[..i], n) == NthEnqueue(ops, n)
  {
    if i == |ops| {
      assert ops[..i] == ops;
    } else {
      EnqueuesMonotone(ops, i);
      EnqueuesMonotone(Init(ops), i);
      assert Init(ops)[..i] == ops[..i];
      NthEnqueueOfPrefix(Init(ops), i, n);
    }
  }

  /** An entry nobody leased or nacked is ready from its enqueue time on. */
  lemma {:induction false} NewIsReady(ops: seq<Op>, i: nat, id: Uint64)
    requires i <= |ops| && 1 <= id <= Enqueues(ops[..i]) && Quiet(ops, 0, i, id)
    ensures id <= Enqueues(ops) && ReadyAt(ops, i, id) == AtLeastZero(NthEnqueue(ops, id).nowMs)
  {
    NthEnqueueOfPrefix(ops, i, id);
    assert i > 0 && Init(ops[..i]) == ops[..i - 1];
    if !(ops[i - 1].Enqueue? && id == Enqueues(ops[..i])) { NewIsReady(ops, i - 1, id); }
  }

  // ----- First delivery is first-in first-out -----

  ghost predicate LeasedBefore(ops: seq<Op>, i: nat, id: Uint64) { exists k | 0 <= k < i :: LeasesAt(ops, k, id) }

  /** The exact condition of overtaking.  A lease that takes `b` takes an earlier readable entry `a` as well unless
      `a` is not ready yet; then, and only then, is `a` overtaken. */
  lemma OvertakenExactlyWhenNotReady(ops: seq<Op>, i: nat, a: Uint64, b: Uint64)
    requires NoWrap(ops) && a < b && LeasesAt(ops, i, b) && NackFinds(Run(ops[..i]), a)
    requires forall k | 0 <= k < i && LeasesAt(ops, k, a) :: ops[k].leaseMs >= 0
    ensures LeasesAt(ops, i, a) <==> ops[i].nowMs >= ReadyAt(ops, i, a)
  {
    var q, nowMs, max := Run(ops[..i]), ops[i].nowMs, ops[i].max;
    DueWhenReady(ops, i, a, nowMs);
    if Due(q, a, nowMs) { LeasedAreFirst(q, max, nowMs, a); }
  }

  /** An entry nobody was handed is overtaken exactly by leases that come before its enqueue time. */
  lemma NewOvertakenExactly(ops: seq<Op>, i: nat, a: Uint64, b: Uint64)
    requires NoWrap(ops) && 1 <= a < b && LeasesAt(ops, i, b) && NackFinds(Run(ops[..i]), a) && Quiet(ops, 0, i, a)
    ensures a <= Enqueues(ops)
    ensures LeasesAt(ops, i, a) <==> ops[i].nowMs >= AtLeastZero(NthEnqueue(ops, a).nowMs)
  {
    FoundIsEnqueued(ops, i, i, a);
    NewIsReady(ops, i, a);
    OvertakenExactlyWhenNotReady(ops, i, a, b);
  }

  /** An entry that was nacked last, by whomever, is overtaken exactly by leases that come before its backoff ends. */
  lemma NackedOvertakenExactly(ops: seq<Op>, k: nat, i: nat, a: Uint64, b: Uint64)
    requires NoWrap(ops) && NonNegativeLeases(ops, a) && a < b
    requires k < i && NacksAt(ops, k, a) && Quiet(ops, k + 1, i, a)
    requires LeasesAt(ops, i, b) && NackFinds(Run(ops[..i]), a)
    ensures LeasesAt(ops, i, a) <==> ops[i].nowMs >= AtLeastZero(ops[k].nowMs + ops[k].backoffMs)
  {
    FoundIsEnqueued(ops, k, k + 1, a);
    QuietKeepsReadyAt(ops, k + 1, i, a);
    OvertakenExactlyWhenNotReady(ops, i, a, b);
  }

  /** Over a whole run: no lease takes `b` while an earlier entry `a` is readable and was never handed out, exactly
      if every lease that could do so comes when `a` is ready. */
  lemma OrderIsKeptExactlyIfReady(ops: seq<Op>, a: Uint64, b: Uint64)
    requires NoWrap(ops) && NonNegativeLeases(ops, a) && a < b
    ensures (forall i: nat | LeasesAt(ops, i, b) && NackFinds(Run(ops[..i]), a) :: LeasedBefore(ops, i + 1, a))
       <==> (forall i: nat | LeasesAt(ops, i, b) && NackFinds(Run(ops[..i]), a) ::
               LeasedBefore(ops, i, a) || ops[i].nowMs >= ReadyAt(ops, i, a))
  {
    forall i: nat | LeasesAt(ops, i, b) && NackFinds(Run(ops[..i]), a)
      ensures LeasedBefore(ops, i + 1, a) <==> LeasedBefore(ops, i, a) || ops[i].nowMs >= ReadyAt(ops, i, a)
    {
      OvertakenExactlyWhenNotReady(ops, i, a, b);
      if LeasedBefore(ops, i + 1, a) && !LeasedBefore(ops, i, a) { assert LeasesAt(ops, i, a); }
      if k: nat :| k < i && LeasesAt(ops, k, a) { assert LeasedBefore(ops, i + 1, a); }
    }
  }

  /** When a lease takes `b`, and neither `b` nor the earlier entry `a` has been leased or nacked before, the same
      lease takes `a`, ahead of `b`, if `a` is readable and was enqueued no later. */
  lemma FirstDeliveryIsFifo(ops: seq<Op>, i: nat, a: Uint64, b: Uint64)
    requires NoWrap(ops) && 1 <= a < b <= Enqueues(ops) && NthEnqueue(ops, a).nowMs <= NthEnqueue(ops, b).nowMs
    requires LeasesAt(ops, i, b) && NackFinds(Run(ops[..i]), a)
    requires Quiet(ops, 0, i, a) && Quiet(ops, 0, i, b)
    ensures var ids := LeasedIds(Run(ops[..i]), ops[i].max, ops[i].nowMs);
            exists j, k :: 0 <= j < k < |ids| && ids[j] == a && ids[k] == b
  {
    var ids := LeasedIds(Run(ops[..i]), ops[i].max, ops[i].nowMs);
    assert Due(Run(ops[..i]), b, ops[i].nowMs);
    FoundIsEnqueued(ops, i, i, b);
    DueWhenReady(ops, i, b, ops[i].nowMs);
    NewIsReady(ops, i, b);
    NewOvertakenExactly(ops, i, a, b);
    var j, k :| 0 <= j < |ids| && 0 <= k < |ids| && ids[j] == a && ids[k] == b;
    assert j < k;
  }

  /** An entry that is gone, or can no longer be read, stays so. */
  lemma {:induction false} GoneStaysGone(ops: seq<Op>, i: nat, j: nat, id: Uint64)
    requires NoWrap(ops) && i <= j <= |ops| && 1 <= id <= Enqueues(ops[..i]) && !NackFinds(Run(ops[..i]), id)
    ensures !NackFinds(Run(ops[..j]), id)
    decreases j
  {
    if i < j {
      GoneStaysGone(ops, i, j - 1, id);
      EnqueuesMonotone(ops[..j - 1], i);
      assert ops[..j - 1][..i] == ops[..i];
      if NackFinds(Run(ops[..j]), id) { EntryStep(ops, j - 1, id); }
    }
  }

  /** Whoever nacks `id` had been handed it. */
  ghost predicate NackedAfterLease(ops: seq<Op>, id: Uint64) {
    forall k: nat | NacksAt(ops, k, id) :: LeasedBefore(ops, k, id)
  }

  lemma NotLeasedIsQuiet(ops: seq<Op>, i: nat, id: Uint64)
    requires NackedAfterLease(ops, id) && !LeasedBefore(ops, i, id)
    ensures Quiet(ops, 0, i, id)
  {
    forall k: nat | k < i ensures !LeasesAt(ops, k, id) && !NacksAt(ops, k, id) {
      assert LeasedBefore(ops, k, id) ==> LeasedBefore(ops, i, id);
    }
  }

  /** Whatever else happens in the run, a lease takes `b` only if the earlier entry `a` has been leased by then or
      can no longer be read, provided `a` was enqueued no later and neither was nacked before it was handed out. */
  lemma NoOvertaking(ops: seq<Op>, i: nat, a: Uint64, b: Uint64)
    requires NoWrap(ops) && 1 <= a < b <= Enqueues(ops) && NthEnqueue(ops, a).nowMs <= NthEnqueue(ops, b).nowMs
    requires NackedAfterLease(ops, a) && NackedAfterLease(ops, b) && LeasesAt(ops, i, b)
    ensures LeasedBefore(ops, i + 1, a) || !NackFinds(Run(ops[..i]), a)
    decreases i
  {
    if k: nat :| k < i && LeasesAt(ops, k, b) {
      NoOvertaking(ops, k, a, b);
      FoundIsEnqueued(ops, k, k, b);
      if !NackFinds(Run(ops[..k]), a) { GoneStaysGone(ops, k, i, a); }
    } else if !LeasedBefore(ops, i, a) && NackFinds(Run(ops[..i]), a) {
      assert !LeasedBefore(ops, i, b);
      NotLeasedIsQuiet(ops, i, a);
      NotLeasedIsQuiet(ops, i, b);
      FirstDeliveryIsFifo(ops, i, a, b);
      assert LeasesAt(ops, i, a);
    }
  }

  /** First leases happen in id order, for any mix of operations: if both `a` and `b` are ever leased, `a` is by the
      time `b` is. */
  lemma FirstLeasesInOrder(ops: seq<Op>, i: nat, j: nat, a: Uint64, b: Uint64)
    requires NoWrap(ops) && 1 <= a < b <= Enqueues(ops) && NthEnqueue(ops, a).nowMs <= NthEnqueue(ops, b).nowMs
    requires NackedAfterLease(ops, a) && NackedAfterLease(ops, b)
    requires LeasesAt(ops, i, b) && LeasesAt(ops, j, a)
    ensures LeasedBefore(ops, i + 1, a)
  {
    NoOvertaking(ops, i, a, b);
    if j > i {
      FoundIsEnqueued(ops, i, i, b);
      assert Due(Run(ops[..j]), a, ops[j].nowMs);
      if !NackFinds(Run(ops[..i]), a) { GoneStaysGone(ops, i, j, a); }
    }
  }

  ghost predicate Removes(ops: seq<Op>, k: nat, id: Uint64) {
    k < |ops| && (ops[k] == Ack(id) || ops[k] == Damage(id) || NacksAt(ops, k, id))
  }

  /** An entry that can no longer be read was acked, damaged or nacked. */
  lemma {:induction false} GoneForAReason(ops: seq<Op>, i: nat, id: Uint64)
    requires NoWrap(ops) && i <= |ops| && 1 <= id <= Enqueues(ops[..i]) && !NackFinds(Run(ops[..i]), id)
    ensures exists k: nat :: k < i && Removes(ops, k, id)
  {
    if !Removes(ops, i - 1, id) {
      GoneStep(ops, i - 1, id);
      GoneForAReason(ops, i - 1, id);
    }
  }

  lemma GoneStep(ops: seq<Op>, i: nat, id: Uint64)
    requires NoWrap(ops) && i < |ops| && !Removes(ops, i, id)
    requires 1 <= id <= Enqueues(ops[..i + 1]) && !NackFinds(Run(ops[..i + 1]), id)
    ensures id <= Enqueues(ops[..i]) && !NackFinds(Run(ops[..i]), id)
  {
    RunStep(ops, i);
    assert Init(ops[..i + 1]) == ops[..i];
    EnqueuesMonotone(ops, i);
    EntriesKeepIdentity(ops[..i]);
    if NackFinds(Run(ops[..i]), id) { StaysReadable(Run(ops[..i]), ops[i], id); }
  }

  lemma StaysReadable(q: Queue, op: Op, id: Uint64)
    requires NackFinds(q, id) && op != Ack(id) && op != Damage(id) && !Nacks(q, op, id)
    ensures NackFinds(Apply(q, op), id)
  {
  }

  /** Ordered enqueue times are needed: a clock that steps back lets the second entry overtake the first. */
  lemma OvertakingWhenClockStepsBack(p: Payload)
    ensures var ops := [Enqueue(p, 10), Enqueue(p, 5), Lease(1, 0, 7)];
            LeasesAt(ops, 2, 2) && !LeasesAt(ops, 2, 1)
  {
    var ops := [Enqueue(p, 10), Enqueue(p, 5), Lease(1, 0, 7)];
    TwoEntries(ops, p, 10, 5);
    LeaseSkipsFirst(Run(ops[..2]), 7);
  }

  /** Nacking only what was handed out is needed: a nack of an entry nobody has lets the next entry overtake it. */
  lemma OvertakingAfterBlindNack(p: Payload)
    ensures var ops := [Enqueue(p, 0), Enqueue(p, 0), Nack(1, 100, 0, 20), Lease(1, 0, 7)];
            LeasesAt(ops, 3, 2) && !LeasesAt(ops, 3, 1) && NacksAt(ops, 2, 1)
  {
    var ops := [Enqueue(p, 0), Enqueue(p, 0), Nack(1, 100, 0, 20), Lease(1, 0, 7)];
    TwoEntries(ops, p, 0, 0);
    RunStep(ops, 2);
    LeaseSkipsFirst(Run(ops[..3]), 7);
  }

  lemma TwoEntries(ops: seq<Op>, p: Payload, t1: int, t2: int)
    requires |ops| >= 2 && ops[0] == Enqueue(p, t1) && ops[1] == Enqueue(p, t2)
    ensures Run(ops[..2]) == Queue(2, map[1 := Readable(FreshItem(1, p, t1)), 2 := Readable(FreshItem(2, p, t2))])
  {
    RunStep(ops, 0);
    RunStep(ops, 1);
  }

  lemma LeaseSkipsFirst(q: Queue, nowMs: int)
    requires q.items.Keys == {1, 2} && Due(q, 2, nowMs) && !Due(q, 1, nowMs)
    ensures 2 in LeasedIds(q, 1, nowMs) && 1 !in LeasedIds(q, 1, nowMs)
  {
    var ids := LeasedIds(q, 1, nowMs);
    assert ids != [] ==> ids[0] in ids;
    LeasedAreFirst(q, 1, nowMs, 2);
  }
}
