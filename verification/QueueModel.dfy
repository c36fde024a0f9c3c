/** What one named durable queue means: entries by id, and the effect of each committed operation on them. */
module QueueModel {
  import opened Common

  type Payload = seq<Byte>

  datatype Item = Item(
    id: Uint64,
    payload: Payload,
    attempts: int,
    enqueuedMs: int,
    notBeforeMs: int,
    leaseUntilMs: int)

  /** A stored value either parses as an item or does not. */
  datatype Stored = Readable(item: Item) | Unreadable

  /** `last` is the last id handed out. */
  datatype Queue = Queue(last: Uint64, items: map<Uint64, Stored>)

  const EMPTY := Queue(0, map[])

  function FreshItem(id: Uint64, payload: Payload, nowMs: int): Item {
    Item(id, payload, 0, nowMs, nowMs, 0)
  }

  function AfterEnqueue(q: Queue, payload: Payload, nowMs: int): Queue {
    var id := Bump(q.last);
    Queue(id, q.items[id := Readable(FreshItem(id, payload, nowMs))])
  }

  // ----- Leasing -----

  predicate Available(s: Stored, nowMs: int) {
    s.Readable? && s.item.notBeforeMs <= nowMs && s.item.leaseUntilMs <= nowMs
  }

  predicate Due(q: Queue, id: Uint64, nowMs: int) {
    id in q.items && Available(q.items[id], nowMs)
  }

  predicate Ascending(ids: seq<Uint64>) {
    forall i, j | 0 <= i < j < |ids| :: ids[i] < ids[j]
  }

  /** The due entries with an id below `bound`, in id order. */
  ghost function DueBelow(q: Queue, nowMs: int, bound: nat): (ids: seq<Uint64>)
    requires bound <= TWO_64
    ensures Ascending(ids)
    ensures forall id: Uint64 :: id in ids <==> id < bound && Due(q, id, nowMs)
  {
    if bound == 0 then []
    else
      var lower := DueBelow(q, nowMs, bound - 1);
      assert forall i | 0 <= i < |lower| :: lower[i] in lower;
      lower + if Due(q, bound - 1, nowMs) then [bound - 1] else []
  }

  /** The entries a lease takes: the first `max` due ones in id order. */
  ghost function LeasedIds(q: Queue, max: int, nowMs: int): (ids: seq<Uint64>)
    ensures Ascending(ids)
    ensures |ids| <= if max <= 0 then 0 else max
    ensures forall id | id in ids :: Due(q, id, nowMs)
  {
    var due := DueBelow(q, nowMs, TWO_64);
    var ids := Take(due, max);
    assert forall i | 0 <= i < |ids| :: ids[i] == due[i];
    ids
  }

  function Lent(s: Stored, untilMs: int): Stored
    requires s.Readable?
  {
    Readable(s.item.(leaseUntilMs := untilMs))
  }

  /** Entries `ids` carry a lease until `untilMs`; every other entry is as it was. */
  ghost function WithLeases(q: Queue, ids: seq<Uint64>, untilMs: int): Queue
    requires forall id | id in ids :: id in q.items && q.items[id].Readable?
  {
    q.(items := map id | id in q.items :: if id in ids then Lent(q.items[id], untilMs) else q.items[id])
  }

  ghost function LentItems(q: Queue, ids: seq<Uint64>, untilMs: int): (out: seq<Item>)
    requires forall id | id in ids :: id in q.items && q.items[id].Readable?
    ensures |out| == |ids|
    ensures forall i | 0 <= i < |ids| :: out[i] == Lent(q.items[ids[i]], untilMs).item
  {
    seq(|ids|, i requires 0 <= i < |ids| => assert ids[i] in ids; Lent(q.items[ids[i]], untilMs).item)
  }

  ghost function AfterLease(q: Queue, max: int, leaseMs: int, nowMs: int): Queue {
    WithLeases(q, LeasedIds(q, max, nowMs), nowMs + leaseMs)
  }

  ghost function LeaseResult(q: Queue, max: int, leaseMs: int, nowMs: int): seq<Item> {
    LentItems(q, LeasedIds(q, max, nowMs), nowMs + leaseMs)
  }

  /** Leases go to the lowest due ids: a due entry is passed over only when `max` lower ones were taken. */
  lemma LeasedAreFirst(q: Queue, max: int, nowMs: int, id: Uint64)
    requires Due(q, id, nowMs)
    ensures id !in LeasedIds(q, max, nowMs) ==>
              |LeasedIds(q, max, nowMs)| == (if max <= 0 then 0 else max)
              && forall other | other in LeasedIds(q, max, nowMs) :: other < id
  {
    var due, ids := DueBelow(q, nowMs, TWO_64), LeasedIds(q, max, nowMs);
    assert id in due;
    var at :| 0 <= at < |due| && due[at] == id;
    if id !in ids {
      assert forall i | 0 <= i < |ids| :: ids[i] == due[i];
    }
  }

  // ----- Settling -----

  function AfterAck(q: Queue, id: Uint64): Queue { q.(items := q.items - {id}) }

  /** A nack acts only on an entry that exists and parses. */
  predicate NackFinds(q: Queue, id: Uint64) { id in q.items && q.items[id].Readable? }

  predicate NackExhausts(q: Queue, id: Uint64, maxAttempts: int) {
    NackFinds(q, id) && maxAttempts > 0 && q.items[id].item.attempts + 1 >= maxAttempts
  }

  function AfterNack(q: Queue, id: Uint64, backoffMs: int, nowMs: int, maxAttempts: int): Queue {
    if !NackFinds(q, id) then q
    else if NackExhausts(q, id, maxAttempts) then AfterAck(q, id)
    else
      var it := q.items[id].item;
      q.(items := q.items[id := Readable(it.(attempts := it.attempts + 1, notBeforeMs := nowMs + backoffMs,
                                             leaseUntilMs := 0))])
  }

  // ----- The operations field by field -----

  lemma DueExactly(q: Queue, id: Uint64, nowMs: int)
    ensures Due(q, id, nowMs) <==>
              id in q.items && q.items[id].Readable?
              && q.items[id].item.notBeforeMs <= nowMs && q.items[id].item.leaseUntilMs <= nowMs
  {
  }

  /** An enqueue adds one entry, under the next id, due from the enqueue time on. */
  lemma EnqueueFields(q: Queue, payload: Payload, nowMs: int)
    ensures var q', id := AfterEnqueue(q, payload, nowMs), (q.last + 1) % 0x1_0000_0000_0000_0000;
            && q'.last == id
            && q'.items == q.items[id := Readable(Item(id, payload, 0, nowMs, nowMs, 0))]
  {
  }

  /** A lease sets one field of the entries it takes, hands these out, and leaves all else alone. */
  lemma LeaseFields(q: Queue, max: int, leaseMs: int, nowMs: int)
    ensures var q', out := AfterLease(q, max, leaseMs, nowMs), LeaseResult(q, max, leaseMs, nowMs);
            var ids := LeasedIds(q, max, nowMs);
            && q'.last == q.last && q'.items.Keys == q.items.Keys && |out| == |ids|
            && (forall id | id in q.items && id !in ids :: q'.items[id] == q.items[id])
            && forall i | 0 <= i < |ids| ::
                 && ids[i] in q.items && q.items[ids[i]].Readable?
                 && out[i] == q.items[ids[i]].item.(leaseUntilMs := nowMs + leaseMs)
                 && q'.items[ids[i]] == Readable(out[i])
  {
    var ids := LeasedIds(q, max, nowMs);
    forall i | 0 <= i < |ids| ensures ids[i] in q.items && q.items[ids[i]].Readable? {
      assert ids[i] in ids;
      assert Due(q, ids[i], nowMs);
    }
  }

  /** An ack removes one entry. */
  lemma AckFields(q: Queue, id: Uint64)
    ensures AfterAck(q, id).last == q.last && AfterAck(q, id).items == map x | x in q.items && x != id :: q.items[x]
  {
  }

  /** A nack of a readable entry counts an attempt; it removes the entry if that reaches a positive limit, and makes
      it wait otherwise.  A nack of anything else does nothing. */
  lemma NackFields(q: Queue, id: Uint64, backoffMs: int, nowMs: int, maxAttempts: int)
    ensures var q' := AfterNack(q, id, backoffMs, nowMs, maxAttempts);
            && q'.last == q.last
            && (forall x | x in q.items && x != id :: x in q'.items && q'.items[x] == q.items[x])
            && (forall x | x in q'.items :: x in q.items)
            && (id in q.items && q.items[id].Unreadable? ==> id in q'.items && q'.items[id].Unreadable?)
            && (id in q.items && q.items[id].Readable? ==>
                  var it := q.items[id].item;
                  if maxAttempts > 0 && it.attempts + 1 >= maxAttempts then id !in q'.items
                  else
                    id in q'.items
                    && q'.items[id] == Readable(Item(it.id, it.payload, it.attempts + 1, it.enqueuedMs,
                                                     nowMs + backoffMs, 0)))
  {
  }

  // ----- When an entry can be leased next -----

  /** A new entry can be leased from its enqueue time on. */
  lemma EnqueuedIsDue(q: Queue, payload: Payload, nowMs: int, t: int)
    ensures Due(AfterEnqueue(q, payload, nowMs), Bump(q.last), t) <==> t >= nowMs && t >= 0
  {
  }

  /** A leased entry can be leased again exactly when its lease is over; an entry passed over is as due as before. */
  lemma LeasedIsDue(q: Queue, max: int, leaseMs: nat, nowMs: int, id: Uint64, t: int)
    ensures Due(AfterLease(q, max, leaseMs, nowMs), id, t)
            <==> if id in LeasedIds(q, max, nowMs) then t >= nowMs + leaseMs else Due(q, id, t)
  {
  }

  /** A kept entry can be leased again exactly when its backoff is over, whatever lease it still had. */
  lemma NackedIsDue(q: Queue, id: Uint64, backoffMs: int, nowMs: int, maxAttempts: int, t: int)
    requires NackFinds(q, id)
    ensures Due(AfterNack(q, id, backoffMs, nowMs, maxAttempts), id, t)
            <==> !NackExhausts(q, id, maxAttempts) && t >= nowMs + backoffMs && t >= 0
  {
  }

  // ----- Lemmas about the ordered scan -----

  lemma {:induction false} DueBelowGap(q: Queue, nowMs: int, low: nat, high: nat)
    requires low <= high <= TWO_64
    requires forall id: Uint64 | low <= id < high :: !Due(q, id, nowMs)
    ensures DueBelow(q, nowMs, high) == DueBelow(q, nowMs, low)
  {
    if low < high { DueBelowGap(q, nowMs, low, high - 1); }
  }

  lemma {:induction false} DueBelowPrefix(q: Queue, nowMs: int, low: nat, high: nat)
    requires low <= high <= TWO_64
    ensures DueBelow(q, nowMs, low) <= DueBelow(q, nowMs, high)
  {
    if low < high { DueBelowPrefix(q, nowMs, low, high - 1); }
  }
}
