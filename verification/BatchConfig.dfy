/** The batch configuration over restarts: what is persisted, what is in force, and what a restart brings back. */
module BatchConfig {
  import opened Common
  import opened BatchJobs

  /** The configuration in force: the job table and the armed cron entries. */
  datatype Config = Config(jobs: map<string, JobSpec>, armed: seq<JobSpec>)

  /** `pending` is a command that has gone through persistence and is about to be applied. */
  datatype State = State(blob: seq<Byte>, pending: Option<Command>, live: Config)

  datatype Event =
    | Receive(cmd: Command, marshalOk: bool, committed: bool)
    | ApplyPending
    | Restart(readOk: bool)  // the start-up may fail to read the blob

  function Applied(cmd: Command, cronOk: string -> bool): Config { Config(JobMap(cmd), Armed(cmd, cronOk)) }

  /** What a start-up makes of the persisted bytes. */
  function Reloaded(codec: Codec, blob: seq<Byte>, cronOk: string -> bool): Config {
    var cmd := codec.decodeCommand(blob);
    if blob != [] && cmd.Some? then Applied(cmd.value, cronOk) else Applied([], cronOk)
  }

  /** The worker handles one command at a time; a crash may fall between its two halves. */
  function Next(codec: Codec, cronOk: string -> bool, s: State, e: Event): State {
    match e
    case Receive(cmd, marshalOk, committed) =>
      if s.pending.Some? then s
      else s.(pending := Some(cmd), blob := if marshalOk && committed then codec.encodeCommand(cmd) else s.blob)
    case ApplyPending =>
      if s.pending.None? then s else s.(pending := None, live := Applied(s.pending.value, cronOk))
    case Restart(readOk) =>
      State(s.blob, None, if readOk then Reloaded(codec, s.blob, cronOk) else Applied([], cronOk))
  }

  function After(codec: Codec, cronOk: string -> bool, events: seq<Event>): State {
    if events == [] then State([], None, Applied([], cronOk))
    else Next(codec, cronOk, After(codec, cronOk, events[..|events| - 1]), events[|events| - 1])
  }

  /** The last command that was received while none was pending and was successfully persisted; at first, no jobs. */
  function LastPersisted(codec: Codec, cronOk: string -> bool, events: seq<Event>): Command {
    if events == [] then []
    else
      var before, e := events[..|events| - 1], events[|events| - 1];
      if e.Receive? && e.marshalOk && e.committed && After(codec, cronOk, before).pending.None? then e.cmd
      else LastPersisted(codec, cronOk, before)
  }

  lemma {:induction false} BlobIsLastPersisted(codec: Codec, cronOk: string -> bool, events: seq<Event>)
    requires Lawful(codec)
    ensures After(codec, cronOk, events).blob == []
            || After(codec, cronOk, events).blob == codec.encodeCommand(LastPersisted(codec, cronOk, events))
    ensures After(codec, cronOk, events).blob == [] ==> LastPersisted(codec, cronOk, events) == []
  {
    if events != [] { BlobIsLastPersisted(codec, cronOk, events[..|events| - 1]); }
  }

  /** At every crash point, a restart brings back exactly the last successfully persisted command, applied afresh, if
      it can read the blob, or if that command asks for no jobs anyway; otherwise it brings back no jobs.  A command
      without jobs, which persists as no bytes and is skipped on reload, is no exception. */
  lemma {:induction false} RestartRecovers(codec: Codec, cronOk: string -> bool, events: seq<Event>, readOk: bool)
    requires Lawful(codec)
    ensures var live := After(codec, cronOk, events + [Restart(readOk)]).live;
            var last := Applied(LastPersisted(codec, cronOk, events), cronOk);
            && (live == last <==> readOk || last == Applied([], cronOk))
            && (!readOk ==> live == Applied([], cronOk))
  {
    assert (events + [Restart(readOk)])[..|events|] == events;
    BlobIsLastPersisted(codec, cronOk, events);
    var cmd := LastPersisted(codec, cronOk, events);
    assert codec.decodeCommand(codec.encodeCommand(cmd)) == Some(cmd);
  }

  /** The last command received while none was pending was persisted, or a restart that read the blob came after it. */
  predicate Durable(codec: Codec, cronOk: string -> bool, events: seq<Event>) {
    events == []
    || var before, e := events[..|events| - 1], events[|events| - 1];
       match e
       case Receive(_, marshalOk, committed) =>
         if After(codec, cronOk, before).pending.None? then marshalOk && committed
         else Durable(codec, cronOk, before)
       case ApplyPending => Durable(codec, cronOk, before)
       case Restart(readOk) => readOk
  }

  /** Whatever writes failed earlier: if the last command was persisted, then that command is in force or pending,
      and a restart between commands changes nothing. */
  lemma {:induction false} RestartIsInvisible(codec: Codec, cronOk: string -> bool, events: seq<Event>)
    requires Lawful(codec) && Durable(codec, cronOk, events)
    ensures var s, last := After(codec, cronOk, events), LastPersisted(codec, cronOk, events);
            if s.pending.Some? then s.pending.value == last
            else s.live == Applied(last, cronOk) == After(codec, cronOk, events + [Restart(true)]).live
  {
    RestartRecovers(codec, cronOk, events, true);
    if events != [] {
      var before, e := events[..|events| - 1], events[|events| - 1];
      if e.Restart? {
        RestartRecovers(codec, cronOk, before, true);
        assert before + [Restart(true)] == events;
      } else if Durable(codec, cronOk, before) {
        RestartIsInvisible(codec, cronOk, before);
      }
    }
  }

  /** The run in which a command is received and applied. */
  function WithCommand(events: seq<Event>, cmd: Command, marshalOk: bool, committed: bool): seq<Event> {
    events + [Receive(cmd, marshalOk, committed)] + [ApplyPending]
  }

  lemma {:induction false} CommandIsInForce(
      codec: Codec, cronOk: string -> bool, events: seq<Event>, cmd: Command, marshalOk: bool, committed: bool)
    requires After(codec, cronOk, events).pending.None?
    ensures var applied := WithCommand(events, cmd, marshalOk, committed);
            && After(codec, cronOk, applied).live == Applied(cmd, cronOk)
            && LastPersisted(codec, cronOk, applied)
               == if marshalOk && committed then cmd else LastPersisted(codec, cronOk, events)
  {
    var received := events + [Receive(cmd, marshalOk, committed)];
    assert received[..|events|] == events;
    assert WithCommand(events, cmd, marshalOk, committed)[..|received|] == received;
  }

  /** The exact condition under which a restart after a command changes nothing: the restart reads the blob, and the
      command was persisted or asks for what the last persisted one asked for anyway; or the command asks for no jobs
      and the restart reads nothing. */
  lemma RestartKeepsExactly(
      codec: Codec, cronOk: string -> bool, events: seq<Event>, cmd: Command, marshalOk: bool, committed: bool,
      readOk: bool)
    requires Lawful(codec) && After(codec, cronOk, events).pending.None?
    ensures var applied := WithCommand(events, cmd, marshalOk, committed);
            After(codec, cronOk, applied + [Restart(readOk)]).live == After(codec, cronOk, applied).live
            <==> if readOk then (marshalOk && committed)
                                || Applied(LastPersisted(codec, cronOk, events), cronOk) == Applied(cmd, cronOk)
                 else Applied(cmd, cronOk) == Applied([], cronOk)
  {
    CommandIsInForce(codec, cronOk, events, cmd, marshalOk, committed);
    RestartRecovers(codec, cronOk, WithCommand(events, cmd, marshalOk, committed), readOk);
  }

  /** A command whose write fails is in force only until the next restart. */
  lemma UnpersistedIsForgotten(
      codec: Codec, cronOk: string -> bool, events: seq<Event>, cmd: Command, marshalOk: bool)
    requires Lawful(codec) && After(codec, cronOk, events).pending.None?
    ensures var applied := WithCommand(events, cmd, marshalOk, false);
            && After(codec, cronOk, applied).live == Applied(cmd, cronOk)
            && After(codec, cronOk, applied + [Restart(true)]).live
               == Applied(LastPersisted(codec, cronOk, events), cronOk)
  {
    CommandIsInForce(codec, cronOk, events, cmd, marshalOk, false);
    RestartRecovers(codec, cronOk, WithCommand(events, cmd, marshalOk, false), true);
  }
}
