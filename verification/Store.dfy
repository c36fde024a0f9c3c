/** The durable local store: named queues, persistent counters and blobs, one transaction per call. */
module Store {
  import opened Common
  import opened BigEndian
  import opened Bolt
  import opened QueueModel
  import opened QueueRuns

  // ----- Reading a byte-keyed bucket by id -----

  ghost function Items(entries: map<Key, Stored>): map<Uint64, Stored> {
    map id: Uint64 | 0 <= id < TWO_64 && SeqKey(id) in entries :: entries[SeqKey(id)]
  }

  lemma ItemsAfterPut(entries: map<Key, Stored>, id: Uint64, s: Stored)
    ensures Items(entries[SeqKey(id) := s]) == Items(entries)[id := s]
  {
    forall other: Uint64
      ensures SeqKey(other) == SeqKey(id) <==> other == id
    {
      SeqKeyOrder(other, id);
    }
  }

  lemma ItemsAfterDelete(entries: map<Key, Stored>, id: Uint64)
    ensures Items(entries - {SeqKey(id)}) == Items(entries) - {id}
  {
    forall other: Uint64
      ensures SeqKey(other) == SeqKey(id) <==> other == id
    {
      SeqKeyOrder(other, id);
    }
  }

  /** Counting keys counts ids. */
  lemma {:induction false} ItemsSize(entries: map<Key, Stored>)
    requires IdKeys(entries.Keys)
    ensures |Items(entries)| == |entries|
    decreases |entries|
  {
    if entries == map[] {
      assert Items(entries) == map[];
    } else {
      var k :| k in entries;
      SeqKeyOnto(k);
      var id := Decode(k);
      assert k == SeqKey(id);
      var rest := entries - {k};
      assert entries == rest[k := entries[k]];
      ItemsAfterPut(rest, id, entries[k]);
      ItemsSize(rest);
      assert id !in Items(rest);
    }
  }

  // ----- Queues and their histories -----

  ghost function ContentsOf(queues: map<string, Bucket<Stored>>, name: string): Queue {
    if name in queues then Queue(queues[name].sequence, Items(queues[name].entries)) else EMPTY
  }

  ghost function HistoryOf(history: map<string, seq<Op>>, name: string): seq<Op> {
    if name in history then history[name] else []
  }

  ghost function WithOp(history: map<string, seq<Op>>, name: string, op: Op): map<string, seq<Op>> {
    history[name := HistoryOf(history, name) + [op]]
  }

  /** Every queue is what its committed operations made it. */
  ghost predicate Tracked(queues: map<string, Bucket<Stored>>, history: map<string, seq<Op>>) {
    forall name {:trigger Run(HistoryOf(history, name))} :: ContentsOf(queues, name) == Run(HistoryOf(history, name))
  }

  /** Committing `op` on one queue, and recording it, keeps it so. */
  lemma StaysTracked(
      queues: map<string, Bucket<Stored>>, queues': map<string, Bucket<Stored>>, history: map<string, seq<Op>>,
      name: string, op: Op)
    requires Tracked(queues, history)
    requires ContentsOf(queues', name) == Apply(ContentsOf(queues, name), op)
    requires forall other | other != name :: ContentsOf(queues', other) == ContentsOf(queues, other)
    ensures Tracked(queues', WithOp(history, name, op))
  {
    Snoc(HistoryOf(history, name), op);
    var history' := WithOp(history, name, op);
    forall other ensures ContentsOf(queues', other) == Run(HistoryOf(history', other)) {
      assert ContentsOf(queues, other) == Run(HistoryOf(history, other));
    }
  }

  // ----- Counters -----

  /** A counter whose stored bytes are absent, or not 8 of them, reads as zero. */
  function CounterValue(counters: map<string, seq<Byte>>, name: string): (n: Uint64)
    ensures name !in counters || |counters[name]| != 8 ==> n == 0
    ensures name in counters && |counters[name]| == 8 ==> SeqKey(n) == counters[name]
  {
    if name in counters && |counters[name]| == 8
    then SeqKeyOnto(counters[name]); Decode(counters[name])
    else 0
  }

  class Store {
    var queues: map<string, Bucket<Stored>>
    var counters: map<string, seq<Byte>>
    var blobs: map<string, seq<Byte>>

    /** The operations committed on each queue so far. */
    ghost var history: map<string, seq<Op>>

    /** Every key of every queue is the key of an id, and every queue is what its committed operations made it. */
    ghost predicate Valid() reads `queues, `history { KeysAreIds() && Tracked(queues, history) }

    ghost predicate KeysAreIds() reads `queues { forall name | name in queues :: IdKeys(queues[name].entries.Keys) }

    ghost function History(queue: string): seq<Op> reads `history {
      HistoryOf(history, queue)
    }

    /** The histories once `op` has been committed on `queue`. */
    ghost function Recorded(queue: string, op: Op): map<string, seq<Op>> reads `history {
      WithOp(history, queue, op)
    }

    /** The queue called `queue`; one that was never created is empty. */
    ghost function Contents(queue: string): Queue reads `queues {
      ContentsOf(queues, queue)
    }

    function Counter(name: string): Uint64 reads `counters { CounterValue(counters, name) }

    constructor ()
      ensures Valid() && queues == map[] && counters == map[] && blobs == map[] && history == map[]
    {
      queues, counters, blobs, history := map[], map[], map[], map[];
    }

    // ----- Queues -----

    /** Ends a transaction that wrote `bucket`. */
    method Finish(queue: string, bucket: Bucket<Stored>, fate: TxFate) returns (err: bool)
      requires KeysAreIds() && IdKeys(bucket.entries.Keys)
      modifies `queues
      ensures KeysAreIds()
      ensures err <==> fate.FailsAtCommit?
      ensures queues == if err then old(queues) else old(queues)[queue := bucket]
      ensures !err ==> Contents(queue) == Queue(bucket.sequence, Items(bucket.entries))
      ensures forall other | other != queue :: Contents(other) == old(Contents(other))
    {
      err := fate.FailsAtCommit?;
      if !err { queues := queues[queue := bucket]; }
    }

    /** Records that `op` has been committed and has turned the queues from `was` to what they are. */
    ghost method Record(was: map<string, Bucket<Stored>>, queue: string, op: Op)
      requires KeysAreIds() && Tracked(was, history)
      requires Contents(queue) == Apply(ContentsOf(was, queue), op)
      requires forall other | other != queue :: Contents(other) == ContentsOf(was, other)
      modifies `history
      ensures Valid() && history == old(Recorded(queue, op))
    {
      StaysTracked(was, queues, history, queue, op);
      history := Recorded(queue, op);
    }

    method QueueEnqueue(queue: string, payload: Payload, nowMs: int, fate: TxFate) returns (id: Uint64, err: bool)
      requires Valid()
      modifies `queues, `history
      ensures Valid()
      ensures err <==> !fate.Commits?
      ensures err ==> queues == old(queues)
      ensures history == if err then old(history) else old(Recorded(queue, Enqueue(payload, nowMs)))
      ensures !err ==> Contents(queue) == AfterEnqueue(old(Contents(queue)), payload, nowMs)
      ensures !err ==> id == Contents(queue).last
      ensures forall other | other != queue :: Contents(other) == old(Contents(other))
    {
      id := 0;
      if fate.NeverBegins? || fate == FailsInside(0) { return id, true; }
      var b := if queue in queues then queues[queue] else Bucket(0, map[]);
      assert queue !in queues ==> Items(b.entries) == map[];
      id := Bump(b.sequence);
      if fate.FailsInside? { return id, true; }
      var s := Readable(FreshItem(id, payload, nowMs));
      ItemsAfterPut(b.entries, id, s);
      err := Finish(queue, Bucket(id, b.entries[SeqKey(id) := s]), fate);
      if !err { Record(old(queues), queue, Enqueue(payload, nowMs)); }
    }

    method QueueLease(queue: string, max: int, leaseMs: int, nowMs: int, fate: TxFate)
      returns (out: seq<Item>, err: bool)
      requires Valid()
      modifies `queues, `history
      ensures Valid()
      ensures (fate.Commits? ==> !err) && (fate.NeverBegins? || fate.FailsAtCommit? ==> err)
      ensures err ==> queues == old(queues)
      ensures history == if err then old(history) else old(Recorded(queue, Lease(max, leaseMs, nowMs)))
      ensures !err ==> Contents(queue) == AfterLease(old(Contents(queue)), max, leaseMs, nowMs)
      ensures out <= LeaseResult(old(Contents(queue)), max, leaseMs, nowMs)
      ensures !err ==> out == LeaseResult(old(Contents(queue)), max, leaseMs, nowMs)
      ensures forall other | other != queue :: Contents(other) == old(Contents(other))
    {
      out, err := [], false;
      if fate.NeverBegins? { return [], true; }
      if queue !in queues {
        LeaseOfNothing(max, leaseMs, nowMs);
        err := fate.FailsAtCommit?;
        if !err { Record(queues, queue, Lease(max, leaseMs, nowMs)); }
        return;
      }
      var b := queues[queue];
      var tx;
      tx, out, err := LeaseScan(b, max, nowMs, nowMs + leaseMs, fate);
      ScanIsLease(Contents(queue), tx, out, err, max, leaseMs, nowMs);
      if !err {
        err := Finish(queue, Bucket(b.sequence, tx), fate);
        if !err { Record(old(queues), queue, Lease(max, leaseMs, nowMs)); }
      }
    }

    method QueueAck(queue: string, id: Uint64, fate: TxFate) returns (err: bool)
      requires Valid()
      modifies `queues, `history
      ensures Valid()
      ensures fate.Commits? ==> !err
      ensures err ==> queues == old(queues)
      ensures history == if fate.Commits? then old(Recorded(queue, Ack(id))) else old(history)
      ensures !err ==> Contents(queue) == AfterAck(old(Contents(queue)), id)
      ensures !fate.Commits? ==> Contents(queue) == old(Contents(queue))
      ensures forall other | other != queue :: Contents(other) == old(Contents(other))
    {
      if fate.NeverBegins? { return true; }
      if queue !in queues {
        if fate.Commits? { Record(queues, queue, Ack(id)); }
        return fate.FailsAtCommit?;
      }
      if fate.FailsInside? { return true; }
      var b := queues[queue];
      ItemsAfterDelete(b.entries, id);
      err := Finish(queue, Bucket(b.sequence, b.entries - {SeqKey(id)}), fate);
      if !err { Record(old(queues), queue, Ack(id)); }
    }

    /** `attempts` and `kept` describe the new state only when there is no error. */
    method QueueNack(queue: string, id: Uint64, backoffMs: int, nowMs: int, maxAttempts: int, fate: TxFate)
      returns (attempts: int, kept: bool, err: bool)
      requires Valid()
      modifies `queues, `history
      ensures Valid()
      ensures fate.Commits? ==> !err
      ensures err ==> queues == old(queues)
      ensures history == if fate.Commits? then old(Recorded(queue, Nack(id, backoffMs, nowMs, maxAttempts)))
                         else old(history)
      ensures !err ==> Contents(queue) == AfterNack(old(Contents(queue)), id, backoffMs, nowMs, maxAttempts)
      ensures !fate.Commits? ==> Contents(queue) == old(Contents(queue))
      ensures var items := old(Contents(queue)).items;
              && attempts == (if !fate.NeverBegins? && id in items && items[id].Readable?
                              then items[id].item.attempts + 1 else 0)
              && (!err ==> (kept <==> id in items && items[id].Readable?
                                      && !(maxAttempts > 0 && items[id].item.attempts + 1 >= maxAttempts)))
      ensures forall other | other != queue :: Contents(other) == old(Contents(other))
    {
      attempts, kept := 0, false;
      if fate.NeverBegins? { return 0, false, true; }
      ghost var op := Nack(id, backoffMs, nowMs, maxAttempts);
      var key := SeqKey(id);
      assert queue in queues ==> (key in queues[queue].entries <==> id in Contents(queue).items);
      if queue !in queues || key !in queues[queue].entries || queues[queue].entries[key].Unreadable? {
        if fate.Commits? { Record(queues, queue, op); }
        return 0, false, fate.FailsAtCommit?;
      }
      var b := queues[queue];
      var it := b.entries[key].item;
      attempts := it.attempts + 1;
      kept := !(maxAttempts > 0 && attempts >= maxAttempts);
      if fate.FailsInside? { return attempts, kept, true; }
      var entries := b.entries - {key};
      if kept {
        var s := Readable(it.(attempts := attempts, notBeforeMs := nowMs + backoffMs, leaseUntilMs := 0));
        ItemsAfterPut(b.entries, id, s);
        entries := b.entries[key := s];
      } else {
        ItemsAfterDelete(b.entries, id);
      }
      assert Queue(b.sequence, Items(entries)) == AfterNack(Contents(queue), id, backoffMs, nowMs, maxAttempts);
      err := Finish(queue, Bucket(b.sequence, entries), fate);
      if !err { Record(old(queues), queue, op); }
    }

    /** Over the store's whole life, every entry is still in its queue, was acked while there, or was nacked away. */
    lemma EntriesAreAccountedFor(queue: string)
      requires Valid() && NoWrap(History(queue))
      ensures |Contents(queue).items| + AckedCount(History(queue)) + ExhaustedCount(History(queue))
           == Enqueues(History(queue))
    {
      assert Contents(queue) == Run(History(queue));
      DepthIsConserved(History(queue));
    }

    method QueueDepth(queue: string) returns (n: nat)
      requires Valid()
      ensures n == |Contents(queue).items|
      ensures NoWrap(History(queue)) ==>
                n + AckedCount(History(queue)) + ExhaustedCount(History(queue)) == Enqueues(History(queue))
    {
      if NoWrap(History(queue)) { EntriesAreAccountedFor(queue); }
      if queue !in queues { return 0; }
      ItemsSize(queues[queue].entries);
      return |queues[queue].entries|;
    }

    // ----- Counters and blobs -----

    /** `value` is what the transaction body computed, whether or not it then committed. */
    method Incr(name: string, fate: TxFate) returns (value: Uint64, err: bool)
      modifies `counters
      ensures value == if fate.NeverBegins? then 0 else (old(Counter(name)) + 1) % TWO_64
      ensures err <==> !fate.Commits?
      ensures err ==> counters == old(counters)
      ensures !err ==> Counter(name) == value
      ensures forall other | other != name :: Counter(other) == old(Counter(other))
    {
      if fate.NeverBegins? { return 0, true; }
      value := Bump(Counter(name));
      err := !fate.Commits?;
      SeqKeyOrder(value, value);
      if !err { counters := counters[name := SeqKey(value)]; }
    }

    method PutBlob(key: string, value: seq<Byte>, fate: TxFate) returns (err: bool)
      modifies `blobs
      ensures err <==> !fate.Commits?
      ensures blobs == if err then old(blobs) else old(blobs)[key := value]
    {
      err := !fate.Commits?;
      if !err { blobs := blobs[key := value]; }
    }

    /** An absent blob reads as no bytes. */
    function GetBlob(key: string): (value: seq<Byte>)
      reads `blobs
      ensures key in blobs ==> value == blobs[key]
      ensures key !in blobs ==> value == []
    {
      if key in blobs then blobs[key] else []
    }
  }

  lemma LeaseOfNothing(max: int, leaseMs: int, nowMs: int)
    ensures LeasedIds(EMPTY, max, nowMs) == []
    ensures AfterLease(EMPTY, max, leaseMs, nowMs) == EMPTY
  {
    DueBelowGap(EMPTY, nowMs, 0, TWO_64);
  }

  // ----- The lease loop, one key at a time -----

  /** The body of a lease transaction: walks the bucket with a cursor and rewrites due entries in place. */
  method LeaseScan(b: Bucket<Stored>, max: int, nowMs: int, until: int, fate: TxFate)
    returns (tx: map<Key, Stored>, out: seq<Item>, failed: bool)
    requires IdKeys(b.entries.Keys)
    ensures IdKeys(tx.Keys)
    ensures failed ==> fate.FailsInside?
    ensures ScanResult(Queue(b.sequence, Items(b.entries)), tx, out, failed, max, nowMs, until)
  {
    tx, out, failed := b.entries, [], false;
    ghost var q := Queue(b.sequence, Items(b.entries));
    var k := First(tx.Keys);
    ghost var pos := FirstShowsLeastId(tx.Keys, k);
    ScanStart(q, tx, nowMs, until, pos);
    while k.Some? && |out| < max
      invariant tx.Keys == b.entries.Keys
      invariant CursorAt(k, tx.Keys, pos, pos)
      invariant Scanned(q, tx, out, nowMs, until, pos)
      invariant |out| <= if max <= 0 then 0 else max
      decreases TWO_64 - pos
    {
      ghost var tx0, out0, id := tx, out, pos;
      if Available(tx[k.value], nowMs) {
        if fate == FailsInside(|out|) {
          failed := true;
          break;
        }
        var s := Lent(tx[k.value], until);
        tx, out := tx[k.value := s], out + [s.item];
      }
      k := Next(tx.Keys, k.value);
      pos := NextShowsNextId(tx.Keys, id, k);
      ScanStep(q, tx0, out0, nowMs, until, id, pos);
    }
    ScanStop(q, tx, out, failed, max, until, nowMs, pos);
  }

  /** What a scan returns: the whole lease, or after a failure a first part of its items. */
  ghost predicate ScanResult(
      q: Queue, tx: map<Key, Stored>, out: seq<Item>, failed: bool, max: int, nowMs: int, until: int)
  {
    var ids := LeasedIds(q, max, nowMs);
    && out <= LentItems(q, ids, until)
    && (!failed ==> out == LentItems(q, ids, until) && Items(tx) == WithLeases(q, ids, until).items)
  }

  /** A scan that has passed every id below `pos` holds `out` and has written `tx`. */
  ghost predicate Scanned(q: Queue, tx: map<Key, Stored>, out: seq<Item>, nowMs: int, until: int, pos: nat) {
    && pos <= TWO_64
    && out == LentItems(q, DueBelow(q, nowMs, pos), until)
    && Items(tx) == WithLeases(q, DueBelow(q, nowMs, pos), until).items
  }

  lemma ScanStart(q: Queue, tx: map<Key, Stored>, nowMs: int, until: int, pos: nat)
    requires q.items == Items(tx) && pos <= TWO_64
    requires forall id: Uint64 | id < pos :: SeqKey(id) !in tx
    ensures Scanned(q, tx, [], nowMs, until, pos)
  {
    assert Scanned(q, tx, [], nowMs, until, 0);
    ScanGap(q, tx, [], nowMs, until, 0, pos);
  }

  lemma ScanGap(q: Queue, tx: map<Key, Stored>, out: seq<Item>, nowMs: int, until: int, low: nat, high: nat)
    requires Scanned(q, tx, out, nowMs, until, low)
    requires low <= high <= TWO_64
    requires forall id: Uint64 | low <= id < high :: SeqKey(id) !in tx
    ensures Scanned(q, tx, out, nowMs, until, high)
  {
    forall id: Uint64 | low <= id < high ensures !Due(q, id, nowMs) {
      assert id !in Items(tx);
      assert id !in WithLeases(q, DueBelow(q, nowMs, low), until).items;
    }
    DueBelowGap(q, nowMs, low, high);
  }

  /** One turn of the loop: entry `id` is taken if it is due, and the cursor moves on to `next`. */
  lemma ScanStep(q: Queue, tx: map<Key, Stored>, out: seq<Item>, nowMs: int, until: int, id: Uint64, next: nat)
    requires Scanned(q, tx, out, nowMs, until, id)
    requires SeqKey(id) in tx && id < next <= TWO_64
    requires forall other: Uint64 | id + 1 <= other < next :: SeqKey(other) !in tx
    ensures if Available(tx[SeqKey(id)], nowMs)
            then var s := Lent(tx[SeqKey(id)], until);
                 Scanned(q, tx[SeqKey(id) := s], out + [s.item], nowMs, until, next)
            else Scanned(q, tx, out, nowMs, until, next)
  {
    EntryUnread(q, tx, out, nowMs, until, id);
    if Available(tx[SeqKey(id)], nowMs) {
      var s := Lent(tx[SeqKey(id)], until);
      ScanTakes(q, tx, out, nowMs, until, id);
      forall other: Uint64 | id + 1 <= other < next ensures SeqKey(other) !in tx[SeqKey(id) := s] {
        SeqKeyOrder(other, id);
      }
      ScanGap(q, tx[SeqKey(id) := s], out + [s.item], nowMs, until, id + 1, next);
    } else {
      assert DueBelow(q, nowMs, id + 1) == DueBelow(q, nowMs, id);
      ScanGap(q, tx, out, nowMs, until, id + 1, next);
    }
  }

  /** The cursor finds an entry as the bucket had it when the scan began. */
  lemma EntryUnread(q: Queue, tx: map<Key, Stored>, out: seq<Item>, nowMs: int, until: int, id: Uint64)
    requires Scanned(q, tx, out, nowMs, until, id) && SeqKey(id) in tx
    ensures id in q.items && q.items[id] == tx[SeqKey(id)]
  {
    assert Items(tx)[id] == tx[SeqKey(id)];
  }

  lemma ScanTakes(q: Queue, tx: map<Key, Stored>, out: seq<Item>, nowMs: int, until: int, id: Uint64)
    requires Scanned(q, tx, out, nowMs, until, id) && SeqKey(id) in tx && Due(q, id, nowMs)
    requires q.items[id] == tx[SeqKey(id)]
    ensures var s := Lent(tx[SeqKey(id)], until);
            Scanned(q, tx[SeqKey(id) := s], out + [s.item], nowMs, until, id + 1)
  {
    assert DueBelow(q, nowMs, id + 1) == DueBelow(q, nowMs, id) + [id];
    ItemsAfterPut(tx, id, Lent(tx[SeqKey(id)], until));
  }

  /** What a scan has taken by the time it stops is what the whole lease takes, or a first part of it. */
  lemma ScanStop(
      q: Queue, tx: map<Key, Stored>, out: seq<Item>, failed: bool, max: int, until: int, nowMs: int, pos: nat)
    requires Scanned(q, tx, out, nowMs, until, pos)
    requires |out| <= if max <= 0 then 0 else max
    requires !failed ==> pos == TWO_64 || |out| >= max
    ensures ScanResult(q, tx, out, failed, max, nowMs, until)
  {
    DueBelowPrefix(q, nowMs, pos, TWO_64);
    var part, all := DueBelow(q, nowMs, pos), LeasedIds(q, max, nowMs);
    assert part <= all;
    assert forall i | 0 <= i < |part| :: part[i] == all[i];
    assert !failed ==> part == all;
  }

  /** A scan that runs to its end is a lease. */
  lemma ScanIsLease(
      q: Queue, tx: map<Key, Stored>, out: seq<Item>, failed: bool, max: int, leaseMs: int, nowMs: int)
    requires ScanResult(q, tx, out, failed, max, nowMs, nowMs + leaseMs)
    ensures out <= LeaseResult(q, max, leaseMs, nowMs)
    ensures !failed ==> out == LeaseResult(q, max, leaseMs, nowMs)
    ensures !failed ==> q.(items := Items(tx)) == AfterLease(q, max, leaseMs, nowMs)
  {
  }
}
