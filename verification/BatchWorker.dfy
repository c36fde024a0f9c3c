/** The batch worker: (re)configuration, one firing of a job, and one tick of the report drain. */
module BatchWorker {
  import opened Common
  import opened QueueModel
  import opened QueueRuns
  import opened Drain
  import opened DrainTermination
  import opened Store
  import opened BatchJobs
  import BatchConfig
  import opened RunIds

  const JOBS_BLOB := "batch_jobs"
  const REPORT_QUEUE := "batch_reports"
  const RUN_SEQ := "batch_run_seq"

  /** How the outside world treats one firing. */
  datatype World = World(
    runnerKnown: bool,        // a runner exists for the job's agent kind
    promptOk: bool,           // the prompt template resolves
    result: RunResult,        // what the runner returns
    stamp: string,            // the time stamp of the run's own id
    reportStamp: string,      // the time stamp of a report that draws its own id
    marshalOk: bool,
    nowMs: int,               // when the report is enqueued
    skipFate: TxFate,         // of the skip counter
    runFate: TxFate,          // of the run's own id
    reportIdFate: TxFate,     // of an id drawn for the report
    enqueueFate: TxFate)

  const SKIPPED := RunResult("skipped", [])
  const FAILED := RunResult("failed", [])

  /** The anti-overlap flag of a job; 1 while a run holds it. */
  class Flag {
    var value: int
    constructor () ensures value == 0 { value := 0; }
  }

  class BatchWorker {
    const store: Store
    var jobs: map<string, JobSpec>
    var running: map<string, Flag>
    var armed: seq<JobSpec>

    /** One flag per job, none shared. */
    ghost predicate Valid()
      reads this, store
    {
      && store.Valid()
      && running.Keys == jobs.Keys
      && forall a, b | a in running && b in running && a != b :: running[a] != running[b]
    }

    constructor (store: Store)
      requires store.Valid()
      ensures Valid() && this.store == store && jobs == map[] && running == map[] && armed == []
    {
      this.store := store;
      jobs, running, armed := map[], map[], [];
    }

    /** The persisted configuration and the one in force, between commands. */
    ghost function ConfigState(): BatchConfig.State
      reads this, store`blobs
    {
      BatchConfig.State(store.GetBlob(JOBS_BLOB), None, BatchConfig.Config(jobs, armed))
    }

    /** Replaces the whole configuration; every job gets a new, free flag. */
    method Configure(cmd: Command, cronOk: string -> bool)
      requires Valid()
      modifies this
      ensures Valid()
      ensures jobs == JobMap(cmd) && armed == Armed(cmd, cronOk)
      ensures forall j :: j in armed <==>
                && j in cmd && j.enabled && j.schedule != ""
                && cronOk(if j.timezone == "" then j.schedule else "CRON_TZ=" + j.timezone + " " + j.schedule)
      ensures forall id | id in running :: fresh(running[id]) && running[id].value == 0
    {
      forall j ensures j in Armed(cmd, cronOk) <==>
                && j in cmd && j.enabled && j.schedule != ""
                && cronOk(if j.timezone == "" then j.schedule else "CRON_TZ=" + j.timezone + " " + j.schedule)
      {
        ArmedRows(cmd, cronOk, j);
      }
      jobs, running, armed := map[], map[], [];
      assert cmd[..0] == [];
      for i := 0 to |cmd|
        invariant Valid()
        invariant jobs == JobMap(cmd[..i]) && armed == Armed(cmd[..i], cronOk)
        invariant forall id | id in running :: fresh(running[id]) && running[id].value == 0
      {
        var j := cmd[i];
        assert cmd[..i + 1][..i] == cmd[..i];
        var flag := new Flag();
        jobs, running := jobs[j.id := j], running[j.id := flag];
        if Arms(j, cronOk) { armed := armed + [j]; }
      }
      assert cmd[..|cmd|] == cmd;
    }

    /** A configuration command: persists the configuration if it can, then applies it in any case. */
    method Command(cmd: Command, codec: Codec, marshalOk: bool, fate: TxFate, cronOk: string -> bool)
      requires Valid()
      modifies this, store`blobs
      ensures Valid()
      ensures jobs == JobMap(cmd) && armed == Armed(cmd, cronOk)
      ensures forall id | id in running :: fresh(running[id]) && running[id].value == 0
      ensures store.blobs
           == if marshalOk && fate.Commits? then old(store.blobs)[JOBS_BLOB := codec.encodeCommand(cmd)]
              else old(store.blobs)
      ensures var received := BatchConfig.Receive(cmd, marshalOk, fate.Commits?);
              ConfigState() == BatchConfig.Next(codec, cronOk,
                                                BatchConfig.Next(codec, cronOk, old(ConfigState()), received),
                                                BatchConfig.ApplyPending)
    {
      if marshalOk {
        var _ := store.PutBlob(JOBS_BLOB, codec.encodeCommand(cmd), fate);
      }
      Configure(cmd, cronOk);
    }

    /** At start-up, reapplies the persisted configuration; an empty, undecodable or unreadable blob is left alone. */
    method Reload(codec: Codec, cronOk: string -> bool, readOk: bool)
      requires Valid()
      modifies this
      ensures Valid()
      ensures var raw := store.GetBlob(JOBS_BLOB);
              if readOk && raw != [] && codec.decodeCommand(raw).Some?
              then jobs == JobMap(codec.decodeCommand(raw).value)
                   && armed == Armed(codec.decodeCommand(raw).value, cronOk)
                   && forall id | id in running :: running[id].value == 0
              else jobs == old(jobs) && running == old(running) && armed == old(armed)
      ensures old(jobs) == map[] && old(armed) == [] ==>
                ConfigState() == BatchConfig.Next(codec, cronOk, old(ConfigState()), BatchConfig.Restart(readOk))
    {
      var raw := if readOk then store.GetBlob(JOBS_BLOB) else [];
      if raw != [] {
        var cmd := codec.decodeCommand(raw);
        if cmd.Some? { Configure(cmd.value, cronOk); }
      }
    }

    method NewRunId(stamp: string, fate: TxFate) returns (id: string)
      modifies store`counters
      ensures id == "run-" + stamp + "-" + Decimal(Incremented(old(store.Counter(RUN_SEQ)), fate))
      ensures id == RunId(stamp, Incremented(old(store.Counter(RUN_SEQ)), fate))
      ensures store.Counter(RUN_SEQ)
           == if fate.Commits? then Bump(old(store.Counter(RUN_SEQ))) else old(store.Counter(RUN_SEQ))
      ensures forall name | name != RUN_SEQ :: store.Counter(name) == old(store.Counter(name))
    {
      var n, err := store.Incr(RUN_SEQ, fate);
      var digits := Itoa(n);
      id := "run-" + stamp + "-" + digits;
    }

    method EnqueueReportWithId(j: JobSpec, runId: string, res: RunResult, codec: Codec, w: World)
      returns (attempt: BatchReport)
      requires store.Valid()
      modifies store`queues, store`history
      ensures store.Valid()
      ensures attempt == BatchReport(j.id, runId, res)
      ensures store.Contents(REPORT_QUEUE)
           == if w.marshalOk && w.enqueueFate.Commits?
              then AfterEnqueue(old(store.Contents(REPORT_QUEUE)), codec.encodeReport(attempt), w.nowMs)
              else old(store.Contents(REPORT_QUEUE))
      ensures store.history
           == if w.marshalOk && w.enqueueFate.Commits?
              then old(store.Recorded(REPORT_QUEUE, Enqueue(codec.encodeReport(attempt), w.nowMs)))
              else old(store.history)
      ensures forall name | name != REPORT_QUEUE :: store.Contents(name) == old(store.Contents(name))
    {
      attempt := BatchReport(j.id, runId, res);
      if w.marshalOk {
        var id, err := store.QueueEnqueue(REPORT_QUEUE, codec.encodeReport(attempt), w.nowMs, w.enqueueFate);
      }
    }

    /** Draws the run ids of a firing and returns the one it reports under: a run that ran to its end reports under
        its own, every other report under one of its own, drawn after that of the run if there was one. */
    method DrawIds(acquired: bool, w: World) returns (runId: string)
      modifies store`counters
      ensures var n := old(store.Counter(RUN_SEQ));
              var m := if acquired && w.runFate.Commits? then Bump(n) else n;
              var ran := acquired && w.runnerKnown && w.promptOk;
              && runId == (if ran then "run-" + w.stamp + "-" + Decimal(Incremented(n, w.runFate))
                           else "run-" + w.reportStamp + "-" + Decimal(Incremented(m, w.reportIdFate)))
              && store.Counter(RUN_SEQ) == if !ran && w.reportIdFate.Commits? then Bump(m) else m
      ensures forall name | name != RUN_SEQ :: store.Counter(name) == old(store.Counter(name))
    {
      if acquired {
        runId := NewRunId(w.stamp, w.runFate);
        if w.runnerKnown && w.promptOk { return; }
      }
      runId := NewRunId(w.reportStamp, w.reportIdFate);
    }

    /** Everything that a firing does while the flag is taken, by it or by another: counts a skip exactly if it did not
        get the flag, draws the run ids, and makes one attempt to enqueue one report. */
    method Report(j: JobSpec, acquired: bool, codec: Codec, w: World) returns (attempt: BatchReport)
      requires Valid() && j.id in running && running[j.id].value != 0
      modifies store`queues, store`history, store`counters
      ensures Valid()
      ensures attempt.jobId == j.id
      ensures !acquired ==> attempt.result.status == "skipped"
      ensures acquired && (!w.runnerKnown || !w.promptOk) ==> attempt.result.status == "failed"
      ensures acquired && w.runnerKnown && w.promptOk ==> attempt.result == w.result
      ensures var n := old(store.Counter(RUN_SEQ));
              var m := if acquired && w.runFate.Commits? then Bump(n) else n;
              var ran := acquired && w.runnerKnown && w.promptOk;
              && attempt.runId == (if ran then "run-" + w.stamp + "-" + Decimal(Incremented(n, w.runFate))
                                   else "run-" + w.reportStamp + "-" + Decimal(Incremented(m, w.reportIdFate)))
              && store.Counter(RUN_SEQ) == if !ran && w.reportIdFate.Commits? then Bump(m) else m
      ensures var skips := "batch_" + j.id + "_skipped";
              && store.Counter(skips) == (if !acquired && w.skipFate.Commits? then Bump(old(store.Counter(skips)))
                                          else old(store.Counter(skips)))
              && forall name | name != RUN_SEQ && name != skips :: store.Counter(name) == old(store.Counter(name))
      ensures store.Contents(REPORT_QUEUE)
           == if w.marshalOk && w.enqueueFate.Commits?
              then AfterEnqueue(old(store.Contents(REPORT_QUEUE)), codec.encodeReport(attempt), w.nowMs)
              else old(store.Contents(REPORT_QUEUE))
      ensures store.history
           == if w.marshalOk && w.enqueueFate.Commits?
              then old(store.Recorded(REPORT_QUEUE, Enqueue(codec.encodeReport(attempt), w.nowMs)))
              else old(store.history)
      ensures forall name | name != REPORT_QUEUE :: store.Contents(name) == old(store.Contents(name))
    {
      NamesDiffer(j.id);
      var res := if !w.runnerKnown || !w.promptOk then FAILED else w.result;
      if !acquired {
        var n, err := store.Incr("batch_" + j.id + "_skipped", w.skipFate);
        res := SKIPPED;
      }
      var runId := DrawIds(acquired, w);
      attempt := EnqueueReportWithId(j, runId, res, codec, w);
    }

    /** One firing of a job.  It makes exactly one attempt to enqueue a report if the job has a flag and does
        nothing otherwise; a taken flag makes it skip, and every flag ends up as it was found. */
    method Fire(j: JobSpec, codec: Codec, w: World) returns (attempts: seq<BatchReport>)
      requires Valid()
      modifies store`queues, store`history, store`counters, if j.id in running then {running[j.id]} else {}
      ensures Valid()
      ensures j.id !in running ==>
                attempts == [] && store.queues == old(store.queues) && store.history == old(store.history)
                && store.counters == old(store.counters)
      ensures j.id in running ==>
                var acquired := old(running[j.id].value) == 0;
                && running[j.id].value == old(running[j.id].value)
                && |attempts| == 1 && attempts[0].jobId == j.id
                && (!acquired ==> attempts[0].result.status == "skipped")
                && (acquired && (!w.runnerKnown || !w.promptOk) ==> attempts[0].result.status == "failed")
                && (acquired && w.runnerKnown && w.promptOk ==> attempts[0].result == w.result)
      ensures j.id in running ==>
                var acquired := old(running[j.id].value) == 0;
                var n := old(store.Counter(RUN_SEQ));
                var m := if acquired && w.runFate.Commits? then Bump(n) else n;
                var ran := acquired && w.runnerKnown && w.promptOk;
                && attempts[0].runId == (if ran then "run-" + w.stamp + "-" + Decimal(Incremented(n, w.runFate))
                                         else "run-" + w.reportStamp + "-" + Decimal(Incremented(m, w.reportIdFate)))
                && store.Counter(RUN_SEQ) == if !ran && w.reportIdFate.Commits? then Bump(m) else m
      ensures j.id in running ==>
                var counts := old(running[j.id].value) != 0 && w.skipFate.Commits?;
                var skips := "batch_" + j.id + "_skipped";
                && store.Counter(skips) == (if counts then Bump(old(store.Counter(skips)))
                                            else old(store.Counter(skips)))
                && forall name | name != RUN_SEQ && name != skips :: store.Counter(name) == old(store.Counter(name))
      ensures j.id in running ==>
                var stores := w.marshalOk && w.enqueueFate.Commits?;
                && store.Contents(REPORT_QUEUE)
                   == (if stores
                       then AfterEnqueue(old(store.Contents(REPORT_QUEUE)), codec.encodeReport(attempts[0]), w.nowMs)
                       else old(store.Contents(REPORT_QUEUE)))
                && store.history
                   == (if stores
                       then old(store.Recorded(REPORT_QUEUE, Enqueue(codec.encodeReport(attempts[0]), w.nowMs)))
                       else old(store.history))
                && forall name | name != REPORT_QUEUE :: store.Contents(name) == old(store.Contents(name))
    {
      if j.id !in running { return []; }
      var flag := running[j.id];
      if flag.value != 0 {
        var skip := Report(j, false, codec, w);
        return [skip];
      }
      flag.value := 1;
      var report := Report(j, true, codec, w);
      flag.value := 0;
      return [report];
    }

    /** Settles one leased item: ack after a successful push or when nothing can be decoded, nack otherwise. */
    method Settle(decodes: Payload -> bool, it: Item, o: Outcome) returns (delivered: bool)
      requires store.Valid()
      modifies store`queues, store`history
      ensures store.Valid()
      ensures store.Contents(REPORT_QUEUE) == SettleItem(decodes, old(store.Contents(REPORT_QUEUE)), it, o)
      ensures store.history == if o.fate.Commits? then old(store.Recorded(REPORT_QUEUE, SettledBy(decodes, it, o)))
                               else old(store.history)
      ensures delivered <==> decodes(it.payload) && o.pushOk
      ensures forall name | name != REPORT_QUEUE :: store.Contents(name) == old(store.Contents(name))
    {
      if !decodes(it.payload) {
        var _ := store.QueueAck(REPORT_QUEUE, it.id, o.fate);
        return false;
      }
      if !o.pushOk {
        var _, _, _ := store.QueueNack(REPORT_QUEUE, it.id, BACKOFF_MS, o.nowMs, MAX_ATTEMPTS, o.fate);
        return false;
      }
      var _ := store.QueueAck(REPORT_QUEUE, it.id, o.fate);
      return true;
    }

    /** Works through a leased batch in order. */
    method SettleBatch(decodes: Payload -> bool, items: seq<Item>, outcomes: seq<Outcome>) returns (sent: seq<Delivery>)
      requires store.Valid() && |items| <= |outcomes|
      modifies store`queues, store`history
      ensures store.Valid()
      ensures store.Contents(REPORT_QUEUE) == SettleAll(decodes, old(store.Contents(REPORT_QUEUE)), items, outcomes)
      ensures store.History(REPORT_QUEUE) == old(store.History(REPORT_QUEUE)) + BatchOps(decodes, items, outcomes)
      ensures sent == Sent(decodes, items, outcomes)
      ensures forall name | name != REPORT_QUEUE :: store.Contents(name) == old(store.Contents(name))
    {
      sent := [];
      assert items[..0] == [];
      for i := 0 to |items|
        invariant store.Valid()
        invariant store.Contents(REPORT_QUEUE)
               == SettleAll(decodes, old(store.Contents(REPORT_QUEUE)), items[..i], outcomes)
        invariant store.History(REPORT_QUEUE)
               == old(store.History(REPORT_QUEUE)) + BatchOps(decodes, items[..i], outcomes)
        invariant sent == Sent(decodes, items[..i], outcomes)
        invariant forall name | name != REPORT_QUEUE :: store.Contents(name) == old(store.Contents(name))
      {
        assert items[..i + 1][..i] == items[..i];
        var delivered := Settle(decodes, items[i], outcomes[i]);
        if delivered { sent := sent + [Delivery(items[i].id, items[i].payload)]; }
      }
      assert items[..|items|] == items;
    }

    /** One tick of the drain loop; a lease whose transaction fails leaves everything for the next tick. */
    method DrainTick(decodes: Payload -> bool, t: TickInput, leaseFate: TxFate)
      returns (leased: bool, sent: seq<Delivery>)
      requires store.Valid() && FullTick(t)
      modifies store`queues, store`history
      ensures store.Valid()
      ensures (leaseFate.Commits? ==> leased) && (leaseFate.NeverBegins? || leaseFate.FailsAtCommit? ==> !leased)
      ensures leased ==> store.Contents(REPORT_QUEUE) == AfterTick(decodes, old(store.Contents(REPORT_QUEUE)), t)
      ensures leased ==> store.History(REPORT_QUEUE) == old(store.History(REPORT_QUEUE))
                           + TickOps(decodes, old(store.Contents(REPORT_QUEUE)), t)
      ensures leased ==>
                var items := LeaseResult(old(store.Contents(REPORT_QUEUE)), BATCH_SIZE, LEASE_MS, t.nowMs);
                sent == Sent(decodes, items, t.outcomes)
      ensures !leased ==> store.queues == old(store.queues) && store.history == old(store.history) && sent == []
      ensures forall name | name != REPORT_QUEUE :: store.Contents(name) == old(store.Contents(name))
    {
      ghost var q, ops := store.Contents(REPORT_QUEUE), store.History(REPORT_QUEUE);
      var items, err := store.QueueLease(REPORT_QUEUE, BATCH_SIZE, LEASE_MS, t.nowMs, leaseFate);
      if err { return false, []; }
      sent := SettleBatch(decodes, items, t.outcomes);
      leased := true;
      TickOpsUnfold(decodes, q, ops, items, t);
    }
  }

  lemma TickOpsUnfold(decodes: Payload -> bool, q: Queue, ops: seq<Op>, items: seq<Item>, t: TickInput)
    requires FullTick(t) && items == LeaseResult(q, BATCH_SIZE, LEASE_MS, t.nowMs)
    ensures ops + [Lease(BATCH_SIZE, LEASE_MS, t.nowMs)] + BatchOps(decodes, items, t.outcomes)
         == ops + TickOps(decodes, q, t)
  {
  }

  /** A skip counter is never the run counter. */
  lemma NamesDiffer(jobId: string)
    ensures "batch_" + jobId + "_skipped" != RUN_SEQ
  {
    var name := "batch_" + jobId + "_skipped";
    assert name[|name| - 1] == 'd' && RUN_SEQ[|RUN_SEQ| - 1] == 'q';
  }
}
