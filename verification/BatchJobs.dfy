/** What a declarative batch configuration means: the job table and the cron entries it arms. */
module BatchJobs {
  import opened Common

  datatype JobSpec = JobSpec(
    id: string,
    enabled: bool,
    schedule: string,
    timezone: string,
    agentKind: string,
    promptTemplate: string)

  type Command = seq<JobSpec>

  datatype RunResult = RunResult(status: string, text: seq<Byte>)

  datatype BatchReport = BatchReport(jobId: string, runId: string, result: RunResult)

  /** Abstract encodings of the configuration and of reports. */
  datatype Codec = Codec(
    encodeCommand: Command -> seq<Byte>,
    decodeCommand: seq<Byte> -> Option<Command>,
    encodeReport: BatchReport -> seq<Byte>)

  /** Decoding undoes encoding, and only the configuration without jobs encodes to no bytes. */
  ghost predicate Lawful(codec: Codec) {
    forall cmd: Command ::
      codec.decodeCommand(codec.encodeCommand(cmd)) == Some(cmd) && (codec.encodeCommand(cmd) == [] <==> cmd == [])
  }

  /** The job table: one row per id, the last row given for an id. */
  function JobMap(cmd: Command): map<string, JobSpec> {
    if cmd == [] then map[]
    else var n := |cmd| - 1; JobMap(cmd[..n])[cmd[n].id := cmd[n]]
  }

  /** The text handed to the cron library. */
  function CronSpec(j: JobSpec): (spec: string)
    ensures j.timezone == "" ==> spec == j.schedule
    ensures j.timezone != "" ==> spec == "CRON_TZ=" + j.timezone + " " + j.schedule
  {
    if j.timezone != "" then "CRON_TZ=" + j.timezone + " " + j.schedule else j.schedule
  }

  /** A job gets a cron entry if it is enabled and has a schedule that the cron library accepts. */
  predicate Arms(j: JobSpec, cronOk: string -> bool) {
    j.enabled && j.schedule != "" && cronOk(CronSpec(j))
  }

  /** The cron entries, in order; unlike the job table they keep every row of a repeated id. */
  function Armed(cmd: Command, cronOk: string -> bool): seq<JobSpec> {
    if cmd == [] then []
    else var n := |cmd| - 1; Armed(cmd[..n], cronOk) + if Arms(cmd[n], cronOk) then [cmd[n]] else []
  }

  /** The last row for an id wins, and no id appears from nowhere. */
  lemma {:induction false} LastRowWins(cmd: Command, id: string)
    ensures id in JobMap(cmd) <==> exists i :: 0 <= i < |cmd| && cmd[i].id == id
    ensures id in JobMap(cmd) ==>
              exists i :: 0 <= i < |cmd| && cmd[i].id == id && JobMap(cmd)[id] == cmd[i]
                          && forall k | i < k < |cmd| :: cmd[k].id != id
  {
    if cmd != [] {
      var n := |cmd| - 1;
      LastRowWins(cmd[..n], id);
      if cmd[n].id == id {
        assert JobMap(cmd)[id] == cmd[n];
      } else if id in JobMap(cmd) {
        var i :| 0 <= i < n && cmd[..n][i].id == id && JobMap(cmd[..n])[id] == cmd[..n][i]
                 && forall k | i < k < n :: cmd[..n][k].id != id;
        assert cmd[i].id == id && JobMap(cmd)[id] == cmd[i];
        forall k | i < k < |cmd| ensures cmd[k].id != id {
          if k < n { assert cmd[..n][k].id != id; }
        }
      }
    }
  }

  /** A job has a cron entry exactly if it is in the command, enabled, and has a schedule that the cron library
      accepts, in its time zone if it has one. */
  lemma {:induction false} ArmedRows(cmd: Command, cronOk: string -> bool, j: JobSpec)
    ensures j in Armed(cmd, cronOk) <==>
              && j in cmd && j.enabled && j.schedule != ""
              && cronOk(if j.timezone == "" then j.schedule else "CRON_TZ=" + j.timezone + " " + j.schedule)
  {
    if cmd != [] {
      ArmedRows(cmd[..|cmd| - 1], cronOk, j);
      assert cmd == cmd[..|cmd| - 1] + [cmd[|cmd| - 1]];
    }
  }

  /** The cron entries are the arming rows, each row once, in the order of the command: entry `k` is row `at[k]`. */
  lemma {:induction false} ArmedInOrder(cmd: Command, cronOk: string -> bool) returns (at: seq<nat>)
    ensures |at| == |Armed(cmd, cronOk)|
    ensures forall k | 0 <= k < |at| :: at[k] < |cmd| && Armed(cmd, cronOk)[k] == cmd[at[k]]
    ensures forall k, m | 0 <= k < m < |at| :: at[k] < at[m]
    ensures forall i: nat | i < |cmd| ::
              i in at <==>
                && cmd[i].enabled && cmd[i].schedule != ""
                && cronOk(if cmd[i].timezone == "" then cmd[i].schedule
                          else "CRON_TZ=" + cmd[i].timezone + " " + cmd[i].schedule)
  {
    at := ArmingRows(cmd, cronOk);
  }

  lemma {:induction false} ArmingRows(cmd: Command, cronOk: string -> bool) returns (at: seq<nat>)
    ensures |at| == |Armed(cmd, cronOk)|
    ensures forall k | 0 <= k < |at| :: at[k] < |cmd| && Armed(cmd, cronOk)[k] == cmd[at[k]]
    ensures forall k, m | 0 <= k < m < |at| :: at[k] < at[m]
    ensures forall i: nat | i < |cmd| :: i in at <==> Arms(cmd[i], cronOk)
  {
    if cmd == [] { return []; }
    var n := |cmd| - 1;
    var before := ArmingRows(cmd[..n], cronOk);
    assert forall i: nat | i < n :: cmd[..n][i] == cmd[i];
    if Arms(cmd[n], cronOk) {
      at := before + [n];
      assert forall i: nat | i < n :: i in at <==> i in before;
      assert at[|before|] == n;
    } else {
      at := before;
      assert n !in before;
    }
  }
}
