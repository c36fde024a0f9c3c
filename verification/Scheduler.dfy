/** Firings and reconfigurations running concurrently: anti-overlap flags, skips and reports over every interleaving. */
module Scheduler {
  import opened Common
  import opened BatchJobs

  /** One firing of a job, by cron or on demand, between two of its atomic actions.
      `gen` is the configuration generation in which it looked its flag up. */
  datatype Thread =
    | Looking(job: string)
    | Trying(job: string, gen: nat)
    | Skipping(job: string, gen: nat, counted: bool)
    | Holding(job: string, gen: nat, reported: bool)
    | Finished(job: string, reported: bool)

  datatype Report = Report(thread: nat, job: string, skipped: bool, stored: bool)

  /** A flag cell, allocated for a job by the configuration of generation `gen`. */
  datatype Flag = Flag(job: string, gen: nat, value: int)

  /** `tables[g]` gives the flag cell of each job in generation `g`; the last table is the current one. */
  datatype State = State(
    tables: seq<map<string, nat>>,
    cells: seq<Flag>,
    threads: seq<Thread>,
    reports: seq<Report>,
    skips: map<string, nat>)

  datatype Event =
    | Configure(cmd: Command)
    | Spawn(job: string)
    | Lookup(t: nat)
    | Swap(t: nat)                     // the compare-and-swap from 0 to 1
    | CountSkip(t: nat, committed: bool)
    | Emit(t: nat, committed: bool)    // the attempt to enqueue a report
    | Release(t: nat)

  const START := State([map[]], [], [], [], map[])

  /** A new cell per row, from `base` on; a repeated id keeps the cell of its last row. */
  function FreshTable(cmd: Command, base: nat): (t: map<string, nat>)
    ensures forall id | id in t :: base <= t[id] < base + |cmd| && cmd[t[id] - base].id == id
  {
    if cmd == [] then map[]
    else
      var n := |cmd| - 1;
      var before := FreshTable(cmd[..n], base);
      before[cmd[n].id := base + n]
  }

  /** The flag table has exactly the jobs of the configuration. */
  lemma {:induction false} FreshTableKeys(cmd: Command, base: nat)
    ensures FreshTable(cmd, base).Keys == JobMap(cmd).Keys
  {
    if cmd != [] { FreshTableKeys(cmd[..|cmd| - 1], base); }
  }

  function FreshFlags(cmd: Command, gen: nat): seq<Flag> {
    seq(|cmd|, i requires 0 <= i < |cmd| => Flag(cmd[i].id, gen, 0))
  }

  function Cell(s: State, job: string, gen: nat): nat
    requires gen < |s.tables| && job in s.tables[gen]
  {
    s.tables[gen][job]
  }

  function WithFlag(s: State, c: nat, value: int): State
    requires c < |s.cells|
  {
    s.(cells := s.cells[c := s.cells[c].(value := value)])
  }

  function WithThread(s: State, t: nat, th: Thread): State
    requires t < |s.threads|
  {
    s.(threads := s.threads[t := th])
  }

  predicate HasFlag(s: State, th: Thread) {
    (th.Trying? || th.Skipping? || th.Holding?) ==>
      th.gen < |s.tables| && th.job in s.tables[th.gen] && Cell(s, th.job, th.gen) < |s.cells|
  }

  predicate Enabled(s: State, e: Event) {
    match e
    case Configure(_) => s.tables != []
    case Spawn(_) => true
    case Lookup(t) => t < |s.threads| && s.threads[t].Looking? && s.tables != []
    case Swap(t) => t < |s.threads| && s.threads[t].Trying? && HasFlag(s, s.threads[t])
    case CountSkip(t, _) => t < |s.threads| && s.threads[t].Skipping? && !s.threads[t].counted
    case Emit(t, _) =>
      t < |s.threads|
      && ((s.threads[t].Skipping? && s.threads[t].counted) || (s.threads[t].Holding? && !s.threads[t].reported))
    case Release(t) =>
      t < |s.threads| && s.threads[t].Holding? && s.threads[t].reported && HasFlag(s, s.threads[t])
  }

  function SkipsOf(s: State, job: string): nat { if job in s.skips then s.skips[job] else 0 }

  /** An event that is not enabled does nothing, so that every sequence of events is a run. */
  function Next(s: State, e: Event): State {
    if !Enabled(s, e) then s else
    match e
    case Configure(cmd) =>
      s.(tables := s.tables + [FreshTable(cmd, |s.cells|)], cells := s.cells + FreshFlags(cmd, |s.tables|))
    case Spawn(job) => s.(threads := s.threads + [Looking(job)])
    case Lookup(t) =>
      var job, gen := s.threads[t].job, |s.tables| - 1;
      WithThread(s, t, if job in s.tables[gen] then Trying(job, gen) else Finished(job, false))
    case Swap(t) =>
      var th := s.threads[t];
      var c := Cell(s, th.job, th.gen);
      if s.cells[c].value == 0
      then WithThread(WithFlag(s, c, 1), t, Holding(th.job, th.gen, false))
      else WithThread(s, t, Skipping(th.job, th.gen, false))
    case CountSkip(t, committed) =>
      var th := s.threads[t];
      WithThread(s, t, Skipping(th.job, th.gen, true)).(
        skips := if committed then s.skips[th.job := SkipsOf(s, th.job) + 1] else s.skips)
    case Emit(t, committed) =>
      var th := s.threads[t];
      WithThread(s, t, if th.Skipping? then Finished(th.job, true) else Holding(th.job, th.gen, true)).(
        reports := s.reports + [Report(t, th.job, th.Skipping?, committed)])
    case Release(t) =>
      var th := s.threads[t];
      WithThread(WithFlag(s, Cell(s, th.job, th.gen), 0), t, Finished(th.job, true))
  }

  function After(events: seq<Event>): State {
    if events == [] then START else Next(After(events[..|events| - 1]), events[|events| - 1])
  }

  // ----- Invariants -----

  predicate Holds(s: State, t: nat, job: string, gen: nat) {
    t < |s.threads| && s.threads[t].Holding? && s.threads[t].job == job && s.threads[t].gen == gen
  }

  /** Every table entry leads to a cell allocated for that job and generation, so no two share one. */
  ghost predicate OwnCells(s: State) {
    && s.tables != []
    && forall g, job | 0 <= g < |s.tables| && job in s.tables[g] ::
         && s.tables[g][job] < |s.cells|
         && s.cells[s.tables[g][job]].job == job
         && s.cells[s.tables[g][job]].gen == g
  }

  /** The flag of `job` in generation `g` is 1 while a run holds it and 0 otherwise. */
  ghost predicate FlagTells(s: State, job: string, g: nat)
    requires OwnCells(s) && g < |s.tables| && job in s.tables[g]
  {
    var value := s.cells[s.tables[g][job]].value;
    (value == 0 || value == 1) && (value == 1 <==> exists t :: Holds(s, t, job, g))
  }

  ghost predicate FlagsTell(s: State)
    requires OwnCells(s)
  {
    && (forall g, job | 0 <= g < |s.tables| && job in s.tables[g] :: FlagTells(s, job, g))
    && (forall t, u, job, g :: Holds(s, t, job, g) && Holds(s, u, job, g) ==> t == u)
  }

  ghost predicate Invariant(s: State) {
    OwnCells(s) && (forall t | 0 <= t < |s.threads| :: HasFlag(s, s.threads[t])) && FlagsTell(s)
  }

  lemma {:induction false} InvariantHolds(events: seq<Event>)
    ensures Invariant(After(events))
  {
    if events != [] {
      InvariantHolds(events[..|events| - 1]);
      InvariantKept(After(events[..|events| - 1]), events[|events| - 1]);
    }
  }

  lemma InvariantKept(s: State, e: Event)
    requires Invariant(s)
    ensures Invariant(Next(s, e))
  {
    if Enabled(s, e) {
      match e
      case Configure(cmd) => ConfigureKeeps(s, cmd);
      case Spawn(job) => SameHolders(s, Next(s, e));
      case Swap(t) => SwapKeeps(s, t);
      case Release(t) => ReleaseKeeps(s, t);
      case _ => SameHolders(s, Next(s, e));
    }
  }

  /** A step that moves no thread into or out of holding a flag, and writes no cell. */
  lemma SameHolders(s: State, s': State)
    requires Invariant(s) && s'.tables == s.tables && s'.cells == s.cells
    requires forall t | 0 <= t < |s'.threads| :: HasFlag(s', s'.threads[t])
    requires forall t, job, gen :: Holds(s', t, job, gen) <==> Holds(s, t, job, gen)
    ensures Invariant(s')
  {
    forall g, job | 0 <= g < |s'.tables| && job in s'.tables[g] ensures FlagTells(s', job, g) {
      assert FlagTells(s, job, g);
    }
  }

  lemma ConfigureKeeps(s: State, cmd: Command)
    requires Invariant(s)
    ensures Invariant(Next(s, Configure(cmd)))
  {
    var s' := Next(s, Configure(cmd));
    ConfigureOwns(s, cmd);
    assert forall t, job, gen :: Holds(s', t, job, gen) <==> Holds(s, t, job, gen);
    forall g, job | 0 <= g < |s'.tables| && job in s'.tables[g] ensures FlagTells(s', job, g) {
      if g == |s.tables| {
        forall t: nat ensures !Holds(s', t, job, g) {
          if t < |s.threads| { assert HasFlag(s, s.threads[t]); }
        }
      } else {
        assert FlagTells(s, job, g);
      }
    }
  }

  lemma ConfigureOwns(s: State, cmd: Command)
    requires OwnCells(s)
    ensures var s' := Next(s, Configure(cmd));
            && OwnCells(s')
            && (forall g | 0 <= g < |s.tables| :: s'.tables[g] == s.tables[g])
            && (forall c | 0 <= c < |s.cells| :: s'.cells[c] == s.cells[c])
            && (forall job | job in s'.tables[|s.tables|] :: s'.cells[s'.tables[|s.tables|][job]].value == 0)
            && forall th | HasFlag(s, th) :: HasFlag(s', th)
  {
  }

  lemma SwapKeeps(s: State, t: nat)
    requires Invariant(s) && Enabled(s, Swap(t))
    ensures Invariant(Next(s, Swap(t)))
  {
    var s' := Next(s, Swap(t));
    var th := s.threads[t];
    if s.cells[Cell(s, th.job, th.gen)].value == 0 {
      HolderChange(s, s', t, th.job, th.gen, 1);
    } else {
      SameHolders(s, s');
    }
  }

  lemma ReleaseKeeps(s: State, t: nat)
    requires Invariant(s) && Enabled(s, Release(t))
    ensures Invariant(Next(s, Release(t)))
  {
    var th := s.threads[t];
    assert Holds(s, t, th.job, th.gen);
    HolderChange(s, Next(s, Release(t)), t, th.job, th.gen, 0);
  }

  /** A step in which one thread takes a free flag, or gives back the flag it holds. */
  lemma HolderChange(s: State, s': State, t: nat, job: string, gen: nat, value: int)
    requires Invariant(s) && t < |s.threads| && gen < |s.tables| && job in s.tables[gen]
    requires s'.tables == s.tables && |s'.threads| == |s.threads|
    requires forall u | 0 <= u < |s.threads| && u != t :: s'.threads[u] == s.threads[u]
    requires var c := s.tables[gen][job];
             && s'.cells == s.cells[c := s.cells[c].(value := value)]
             && (s.cells[c].value == 0 || Holds(s, t, job, gen))
             && value == if Holds(s', t, job, gen) then 1 else 0
    requires s'.threads[t].Holding? ==> Holds(s', t, job, gen)
    requires s.threads[t].Holding? ==> Holds(s, t, job, gen)
    requires HasFlag(s', s'.threads[t])
    ensures Invariant(s')
  {
    assert FlagTells(s, job, gen);
    assert forall u, j, g | u != t :: Holds(s', u, j, g) <==> Holds(s, u, j, g);
    forall u | 0 <= u < |s'.threads| ensures HasFlag(s', s'.threads[u]) {
      assert HasFlag(s, s.threads[u]);
    }
    assert OwnCells(s');
    forall g, j | 0 <= g < |s'.tables| && j in s'.tables[g] ensures FlagTells(s', j, g) {
      assert FlagTells(s, j, g);
      if j == job && g == gen {
        assert forall u: nat | u != t :: !Holds(s, u, job, gen);
        assert Holds(s', t, job, gen) <==> exists u :: Holds(s', u, job, gen);
      } else {
        assert s'.cells[s'.tables[g][j]] == s.cells[s.tables[g][j]];
        if u: nat :| Holds(s, u, j, g) { assert Holds(s', u, j, g); }
      }
    }
  }

  // ----- Anti-overlap -----

  /** In every reachable state a flag is 1 exactly when a run holds it and 0 otherwise, so at most one run of a job
      is active per configuration generation. */
  lemma NoOverlapWithinGeneration(events: seq<Event>, job: string, gen: nat)
    requires gen < |After(events).tables| && job in After(events).tables[gen]
    ensures var s := After(events);
            && s.tables[gen][job] < |s.cells|
            && (s.cells[s.tables[gen][job]].value == 0 || s.cells[s.tables[gen][job]].value == 1)
            && (s.cells[s.tables[gen][job]].value == 1 <==> exists t :: Holds(s, t, job, gen))
            && forall t, u :: Holds(s, t, job, gen) && Holds(s, u, job, gen) ==> t == u
  {
    InvariantHolds(events);
    assert FlagTells(After(events), job, gen);
  }

  /** The active runs of a job that looked their flag up in generation `low` or later. */
  ghost function ActiveSince(s: State, job: string, low: nat): set<nat> {
    set t | 0 <= t < |s.threads| && s.threads[t].Holding? && s.threads[t].job == job && s.threads[t].gen >= low
  }

  /** Active runs of one job never outnumber the generations since the oldest of them looked up its flag. */
  lemma OverlapIsBounded(events: seq<Event>, job: string, low: nat)
    requires low <= |After(events).tables|
    ensures |ActiveSince(After(events), job, low)| <= |After(events).tables| - low
  {
    InvariantHolds(events);
    OnePerGeneration(After(events), job, low);
  }

  lemma {:induction false} OnePerGeneration(s: State, job: string, low: nat)
    requires Invariant(s) && low <= |s.tables|
    ensures |ActiveSince(s, job, low)| <= |s.tables| - low
    decreases |s.tables| - low
  {
    var active := ActiveSince(s, job, low);
    if low == |s.tables| {
      assert active == {} by {
        forall t: nat ensures t !in active {
          if t < |s.threads| { assert HasFlag(s, s.threads[t]); }
        }
      }
    } else {
      OnePerGeneration(s, job, low + 1);
      AtMostOneMore(s, job, low);
    }
  }

  lemma AtMostOneMore(s: State, job: string, low: nat)
    requires Invariant(s)
    ensures |ActiveSince(s, job, low)| <= |ActiveSince(s, job, low + 1)| + 1
  {
    var active, later := ActiveSince(s, job, low), ActiveSince(s, job, low + 1);
    forall t, u | t in active - later && u in active - later ensures t == u {
      assert Holds(s, t, job, low) && Holds(s, u, job, low);
    }
    if t :| t in active - later {
      assert forall u | u in active :: u in later || u in active - later;
      SubsetSize(active, later + {t});
    } else {
      assert forall u | u in active :: u in later || u in active - later;
      SubsetSize(active, later);
    }
  }

  lemma {:induction false} SubsetSize(a: set<nat>, b: set<nat>)
    requires a <= b
    ensures |a| <= |b|
  {
    assert b == a + (b - a);
  }

  lemma AfterSnoc(events: seq<Event>, e: Event)
    ensures After(events + [e]) == Next(After(events), e)
  {
    assert (events + [e])[..|events|] == events;
  }

  /** The bound is met: a reconfiguration while a run is active lets a second run of the same job start. */
  lemma OverlapAcrossGenerations(j: JobSpec) returns (events: seq<Event>)
    ensures Holds(After(events), 0, j.id, 1) && Holds(After(events), 1, j.id, 2)
  {
    events := FirstFiring([], j);
    assert After([]) == START;
    events := FirstFiring(events, j);
  }

  /** Reconfiguring with one job and firing it once gets the firing its flag, whatever went on before. */
  lemma FirstFiring(before: seq<Event>, j: JobSpec) returns (events: seq<Event>)
    requires Invariant(After(before))
    ensures var s, s' := After(before), After(events);
            && Holds(s', |s.threads|, j.id, |s.tables|)
            && |s'.threads| == |s.threads| + 1 && |s'.tables| == |s.tables| + 1
            && s'.threads[..|s.threads|] == s.threads
            && Invariant(s')
  {
    var s := After(before);
    var t, cmd := |s.threads|, [j];
    assert cmd[..0] == [];
    assert FreshTable(cmd, |s.cells|) == map[j.id := |s.cells|];
    AfterSnoc(before, Configure(cmd));
    events := before + [Configure(cmd)];
    AfterSnoc(events, Spawn(j.id));
    events := events + [Spawn(j.id)];
    InvariantHolds(events);
    LookupAndSwap(After(events), t);
    AfterSnoc(events, Lookup(t));
    events := events + [Lookup(t)];
    AfterSnoc(events, Swap(t));
    events := events + [Swap(t)];
    InvariantHolds(events);
  }

  /** A firing that looks its flag up while the flag is free gets it. */
  lemma LookupAndSwap(s: State, t: nat)
    requires Invariant(s) && t < |s.threads| && s.threads[t].Looking?
    requires var job, gen := s.threads[t].job, |s.tables| - 1;
             job in s.tables[gen] && s.cells[s.tables[gen][job]].value == 0
    ensures var s' := Next(Next(s, Lookup(t)), Swap(t));
            && Holds(s', t, s.threads[t].job, |s.tables| - 1)
            && s'.tables == s.tables && |s'.threads| == |s.threads|
            && s'.threads[..t] == s.threads[..t]
  {
    var job, gen := s.threads[t].job, |s.tables| - 1;
    assert Next(s, Lookup(t)).threads[t] == Trying(job, gen);
  }

  // ----- Exactly when runs of a job overlap -----

  /** The guard of the compare-and-swap: a firing gets its flag exactly if no run of its own generation holds it. */
  lemma SwapGetsFlagExactly(events: seq<Event>, t: nat)
    requires Enabled(After(events), Swap(t))
    ensures var s := After(events);
            var job, gen := s.threads[t].job, s.threads[t].gen;
            Holds(After(events + [Swap(t)]), t, job, gen) <==> forall u: nat :: !Holds(s, u, job, gen)
  {
    var s := After(events);
    InvariantHolds(events);
    AfterSnoc(events, Swap(t));
    assert FlagTells(s, s.threads[t].job, s.threads[t].gen);
  }

  predicate Active(s: State, t: nat, job: string) {
    t < |s.threads| && s.threads[t].Holding? && s.threads[t].job == job
  }

  /** All active runs of the job are one run. */
  ghost predicate Alone(s: State, job: string) {
    forall t: nat, u: nat | Active(s, t, job) && Active(s, u, job) :: t == u
  }

  /** At no point of the run were two runs of the job active. */
  ghost predicate NeverOverlaps(events: seq<Event>, job: string) {
    Alone(After(events), job) && (events == [] || NeverOverlaps(events[..|events| - 1], job))
  }

  /** If `e` tries the flag of the job, then a run of the same generation is active, or no run of the job is. */
  ghost predicate Harmless(s: State, e: Event, job: string) {
    e.Swap? && Enabled(s, e) && s.threads[e.t].job == job ==>
      (exists u: nat :: Holds(s, u, job, s.threads[e.t].gen)) || (forall u: nat :: !Active(s, u, job))
  }

  /** That was so at every step of the run. */
  ghost predicate AllHarmless(events: seq<Event>, job: string) {
    events == []
    || (AllHarmless(events[..|events| - 1], job) && Harmless(After(events[..|events| - 1]), events[|events| - 1], job))
  }

  lemma AloneStep(s: State, e: Event, job: string)
    requires Invariant(s) && Alone(s, job)
    ensures Alone(Next(s, e), job) <==> Harmless(s, e, job)
  {
    var s' := Next(s, e);
    if e.Swap? && Enabled(s, e) && s.threads[e.t].job == job {
      SwapStep(s, e.t);
    } else {
      assert forall u: nat | Active(s', u, job) :: Active(s, u, job);
    }
  }

  lemma SwapStep(s: State, t: nat)
    requires Invariant(s) && Enabled(s, Swap(t)) && Alone(s, s.threads[t].job)
    ensures var job := s.threads[t].job; Alone(Next(s, Swap(t)), job) <==> Harmless(s, Swap(t), job)
  {
    var s', job, gen := Next(s, Swap(t)), s.threads[t].job, s.threads[t].gen;
    assert FlagTells(s, job, gen);
    assert forall u: nat | u != t :: Active(s', u, job) <==> Active(s, u, job);
    if u: nat :| Holds(s, u, job, gen) {
      assert forall v: nat | Active(s', v, job) :: Active(s, v, job);
    } else {
      assert Active(s', t, job);
      if u: nat :| Active(s, u, job) { assert Active(s', u, job) && u != t; }
    }
  }

  /** The exact condition of overlap, over whole runs: no two runs of a job are ever active at once exactly if every
      firing of it that tries its flag finds a run of its own generation active, or none at all. */
  lemma {:induction false} OverlapsExactly(events: seq<Event>, job: string)
    ensures NeverOverlaps(events, job) <==> AllHarmless(events, job)
  {
    if events != [] {
      var before := events[..|events| - 1];
      OverlapsExactly(before, job);
      InvariantHolds(before);
      if NeverOverlaps(before, job) { AloneStep(After(before), events[|events| - 1], job); }
    }
  }

  // ----- One report per firing -----

  function ReportsBy(reports: seq<Report>, t: nat): nat {
    if reports == [] then 0
    else ReportsBy(reports[..|reports| - 1], t) + if reports[|reports| - 1].thread == t then 1 else 0
  }

  /** In this step firing `t` looks its job's flag up and finds one. */
  predicate FindsFlag(s: State, e: Event, t: nat) {
    e == Lookup(t) && Enabled(s, e) && s.threads[t].job in s.tables[|s.tables| - 1]
  }

  /** Firing `t` has found its flag at some step of the run. */
  predicate Found(events: seq<Event>, t: nat) {
    events != []
    && (Found(events[..|events| - 1], t) || FindsFlag(After(events[..|events| - 1]), events[|events| - 1], t))
  }

  /** Where a firing stands says whether it has found its flag and how many reports it has attempted. */
  predicate Accounted(s: State, t: nat, found: bool) {
    var n := ReportsBy(s.reports, t);
    if t >= |s.threads| then !found && n == 0
    else
      match s.threads[t]
      case Looking(_) => !found && n == 0
      case Trying(_, _) => found && n == 0
      case Skipping(_, _, _) => found && n == 0
      case Holding(_, _, reported) => found && n == if reported then 1 else 0
      case Finished(_, _) => n == if found then 1 else 0
  }

  /** Over every interleaving a firing attempts a report only if it found its flag, and never a second one; once it
      is over, it has attempted exactly one if it found its flag, skipped or not, and none otherwise. */
  lemma OneReportPerFiring(events: seq<Event>, t: nat)
    ensures var s := After(events);
            && ReportsBy(s.reports, t) <= (if Found(events, t) then 1 else 0)
            && (t < |s.threads| && s.threads[t].Finished? ==>
                  ReportsBy(s.reports, t) == if Found(events, t) then 1 else 0)
  {
    FiringIsAccounted(events, t);
  }

  lemma {:induction false} FiringIsAccounted(events: seq<Event>, t: nat)
    ensures Accounted(After(events), t, Found(events, t))
  {
    if events != [] {
      var before, e := events[..|events| - 1], events[|events| - 1];
      InvariantHolds(before);
      FiringIsAccounted(before, t);
      FiringStep(After(before), e, t, Found(before, t));
    }
  }

  lemma FiringStep(s: State, e: Event, t: nat, found: bool)
    requires s.tables != [] && Accounted(s, t, found)
    ensures Accounted(Next(s, e), t, found || FindsFlag(s, e, t))
  {
    var s' := Next(s, e);
    if e.Emit? && Enabled(s, e) {
      assert s'.reports[..|s'.reports| - 1] == s.reports;
      assert ReportsBy(s'.reports, t) == ReportsBy(s.reports, t) + if e.t == t then 1 else 0;
    } else {
      assert s'.reports == s.reports;
    }
  }

  // ----- Skips -----

  /** The skip reports of a job that were stored, or that were lost. */
  function SkipReports(reports: seq<Report>, job: string, stored: bool): nat {
    if reports == [] then 0
    else
      var r := reports[|reports| - 1];
      SkipReports(reports[..|reports| - 1], job, stored)
      + if r.skipped && r.stored == stored && r.job == job then 1 else 0
  }

  /** Skips of a job that are counted but not yet reported. */
  function PendingSkips(threads: seq<Thread>, job: string): nat {
    if threads == [] then 0
    else PendingSkips(threads[..|threads| - 1], job) + PendingSkip(threads[|threads| - 1], job)
  }

  function PendingSkip(th: Thread, job: string): nat { if th.Skipping? && th.counted && th.job == job then 1 else 0 }

  lemma {:induction false} PendingAfterUpdate(threads: seq<Thread>, t: nat, th: Thread, job: string)
    requires t < |threads|
    ensures PendingSkips(threads[t := th], job) + PendingSkip(threads[t], job)
         == PendingSkips(threads, job) + PendingSkip(th, job)
  {
    var n := |threads| - 1;
    if t < n {
      PendingAfterUpdate(threads[..n], t, th, job);
      assert threads[t := th][..n] == threads[..n][t := th];
    } else {
      assert threads[t := th][..n] == threads[..n];
    }
  }

  /** Event `e` fails to count a skip of the job. */
  predicate LosesCount(s: State, e: Event, job: string) {
    e.CountSkip? && Enabled(s, e) && !e.committed && s.threads[e.t].job == job
  }

  function LostCounts(events: seq<Event>, job: string): nat {
    if events == [] then 0
    else
      var before := events[..|events| - 1];
      LostCounts(before, job) + if LosesCount(After(before), events[|events| - 1], job) then 1 else 0
  }

  /** Skips counted and skips reported, each stored or lost, less those about to be reported. */
  predicate Balanced(s: State, job: string, lost: nat) {
    SkipsOf(s, job) + lost
    == SkipReports(s.reports, job, true) + SkipReports(s.reports, job, false) + PendingSkips(s.threads, job)
  }

  lemma {:induction false} SkipsBalance(events: seq<Event>, job: string)
    ensures Balanced(After(events), job, LostCounts(events, job))
  {
    if events != [] {
      var before, e := events[..|events| - 1], events[|events| - 1];
      SkipsBalance(before, job);
      SkipStep(After(before), e, job, LostCounts(before, job));
    }
  }

  /** Whatever writes are lost, the skip counter of a job is the number of its stored skip reports plus the skips
      counted and about to be reported, exactly if as many counts as skip reports were lost. */
  lemma SkipsAgreeExactly(events: seq<Event>, job: string)
    ensures var s := After(events);
            SkipsOf(s, job) == SkipReports(s.reports, job, true) + PendingSkips(s.threads, job)
            <==> LostCounts(events, job) == SkipReports(s.reports, job, false)
  {
    SkipsBalance(events, job);
  }

  predicate AllCommit(events: seq<Event>) {
    forall e | e in events && (e.CountSkip? || e.Emit?) :: e.committed
  }

  /** While all store writes commit, the two agree. */
  lemma SkipsAgree(events: seq<Event>, job: string)
    requires AllCommit(events)
    ensures var s := After(events);
            SkipsOf(s, job) == SkipReports(s.reports, job, true) + PendingSkips(s.threads, job)
  {
    NothingLost(events, job);
    SkipsAgreeExactly(events, job);
  }

  lemma {:induction false} NothingLost(events: seq<Event>, job: string)
    requires AllCommit(events)
    ensures LostCounts(events, job) == 0 && SkipReports(After(events).reports, job, false) == 0
  {
    if events != [] {
      var before, e := events[..|events| - 1], events[|events| - 1];
      assert e in events;
      NothingLost(before, job);
      var s, s' := After(before), After(events);
      if s'.reports != s.reports { assert s'.reports[..|s'.reports| - 1] == s.reports; }
    }
  }

  lemma SkipStep(s: State, e: Event, job: string, lost: nat)
    requires Balanced(s, job, lost)
    ensures Balanced(Next(s, e), job, lost + if LosesCount(s, e, job) then 1 else 0)
  {
    if Enabled(s, e) {
      match e
      case Configure(_) =>
      case Spawn(j) => assert (s.threads + [Looking(j)])[..|s.threads|] == s.threads;
      case Lookup(t) => QuietStep(s, Next(s, e), t, job);
      case Swap(t) => QuietStep(s, Next(s, e), t, job);
      case Release(t) => QuietStep(s, Next(s, e), t, job);
      case CountSkip(t, committed) => CountBalances(s, t, committed, job, lost);
      case Emit(t, committed) => EmitBalances(s, t, committed, job, lost);
    }
  }

  lemma CountBalances(s: State, t: nat, committed: bool, job: string, lost: nat)
    requires Balanced(s, job, lost) && Enabled(s, CountSkip(t, committed))
    ensures var e := CountSkip(t, committed);
            Balanced(Next(s, e), job, lost + if LosesCount(s, e, job) then 1 else 0)
  {
    PendingAfterUpdate(s.threads, t, Next(s, CountSkip(t, committed)).threads[t], job);
  }

  lemma SkipReportsSnoc(reports: seq<Report>, r: Report, job: string, stored: bool)
    ensures SkipReports(reports + [r], job, stored)
         == SkipReports(reports, job, stored) + if r.skipped && r.stored == stored && r.job == job then 1 else 0
  {
    assert (reports + [r])[..|reports|] == reports;
  }

  lemma EmitBalances(s: State, t: nat, committed: bool, job: string, lost: nat)
    requires Balanced(s, job, lost) && Enabled(s, Emit(t, committed))
    ensures Balanced(Next(s, Emit(t, committed)), job, lost)
  {
    var s', th := Next(s, Emit(t, committed)), s.threads[t];
    var r := Report(t, th.job, th.Skipping?, committed);
    assert s'.reports == s.reports + [r] && s'.skips == s.skips && s'.threads == s.threads[t := s'.threads[t]];
    EmitMoves(s.reports, r, s.threads, t, s'.threads[t], job);
  }

  lemma EmitMoves(reports: seq<Report>, r: Report, threads: seq<Thread>, t: nat, th: Thread, job: string)
    requires t < |threads| && !th.Skipping? && r.job == threads[t].job
    requires r.skipped == threads[t].Skipping? && (threads[t].Skipping? ==> threads[t].counted)
    ensures SkipReports(reports + [r], job, true) + SkipReports(reports + [r], job, false)
              + PendingSkips(threads[t := th], job)
         == SkipReports(reports, job, true) + SkipReports(reports, job, false) + PendingSkips(threads, job)
  {
    SkipReportsSnoc(reports, r, job, true);
    SkipReportsSnoc(reports, r, job, false);
    PendingAfterUpdate(threads, t, th, job);
  }

  lemma QuietStep(s: State, s': State, t: nat, job: string)
    requires t < |s.threads| && |s'.threads| == |s.threads|
    requires s'.threads == s.threads[t := s'.threads[t]] && s'.reports == s.reports && s'.skips == s.skips
    requires PendingSkip(s.threads[t], job) == PendingSkip(s'.threads[t], job) == 0
    ensures PendingSkips(s'.threads, job) == PendingSkips(s.threads, job)
  {
    PendingAfterUpdate(s.threads, t, s'.threads[t], job);
  }

  // ----- One firing by itself -----

  function WithFiring(s: State, th: Thread): State { s.(threads := s.threads + [th]) }

  /** The last two steps of a firing that has tried its flag. */
  function FourthEvent(t: nat, taken: bool, counts: bool, stores: bool): Event {
    if taken then CountSkip(t, counts) else Emit(t, stores)
  }

  function FifthEvent(t: nat, taken: bool, stores: bool): Event { if taken then Emit(t, stores) else Release(t) }

  /** Undisturbed, a firing that finds its flag makes one report, a skip exactly if the flag was taken, counts that
      skip if it can, and leaves all flags as they were. */
  lemma FiringIsARun(s: State, job: string, counts: bool, stores: bool)
    returns (looking: State, trying: State, tried: State, late: State, done: State)
    requires Invariant(s) && job in s.tables[|s.tables| - 1]
    ensures var t, gen := |s.threads|, |s.tables| - 1;
            && s.tables[gen][job] < |s.cells|
            && var taken := s.cells[s.tables[gen][job]].value != 0;
               && looking == Next(s, Spawn(job)) && trying == Next(looking, Lookup(t)) && tried == Next(trying, Swap(t))
               && late == Next(tried, FourthEvent(t, taken, counts, stores))
               && done == Next(late, FifthEvent(t, taken, stores))
               && done == WithFiring(s, Finished(job, true)).(
                    reports := s.reports + [Report(t, job, taken, stores)],
                    skips := if taken && counts then s.skips[job := SkipsOf(s, job) + 1] else s.skips)
  {
    var t, gen := |s.threads|, |s.tables| - 1;
    looking, trying := WithFiring(s, Looking(job)), WithFiring(s, Trying(job, gen));
    FiringLooks(s, job, gen);
    if s.cells[s.tables[gen][job]].value != 0 {
      tried, late, done := FiringSkips(s, job, gen, counts, stores);
    } else {
      assert FlagTells(s, job, gen);
      tried, late, done := FiringReports(s, job, gen, stores);
    }
  }

  lemma FiringLooks(s: State, job: string, gen: nat)
    requires gen == |s.tables| - 1 && job in s.tables[gen]
    ensures Next(s, Spawn(job)) == WithFiring(s, Looking(job))
    ensures Next(WithFiring(s, Looking(job)), Lookup(|s.threads|)) == WithFiring(s, Trying(job, gen))
  {
  }

  lemma FiringSkips(s: State, job: string, gen: nat, counts: bool, stores: bool)
    returns (tried: State, late: State, done: State)
    requires gen < |s.tables| && job in s.tables[gen] && s.tables[gen][job] < |s.cells|
    requires s.cells[s.tables[gen][job]].value != 0
    ensures var t := |s.threads|;
            && tried == Next(WithFiring(s, Trying(job, gen)), Swap(t))
            && late == Next(tried, CountSkip(t, counts))
            && done == Next(late, Emit(t, stores))
            && done == WithFiring(s, Finished(job, true)).(
                 reports := s.reports + [Report(t, job, true, stores)],
                 skips := if counts then s.skips[job := SkipsOf(s, job) + 1] else s.skips)
  {
    var t := |s.threads|;
    tried := WithFiring(s, Skipping(job, gen, false));
    late := WithFiring(s, Skipping(job, gen, true)).(
      skips := if counts then s.skips[job := SkipsOf(s, job) + 1] else s.skips);
    done := late.(threads := s.threads + [Finished(job, true)],
                  reports := s.reports + [Report(t, job, true, stores)]);
  }

  lemma FiringReports(s: State, job: string, gen: nat, stores: bool)
    returns (tried: State, late: State, done: State)
    requires gen < |s.tables| && job in s.tables[gen] && s.tables[gen][job] < |s.cells|
    requires s.cells[s.tables[gen][job]].value == 0
    ensures var t := |s.threads|;
            && tried == Next(WithFiring(s, Trying(job, gen)), Swap(t))
            && late == Next(tried, Emit(t, stores))
            && done == Next(late, Release(t))
            && done == WithFiring(s, Finished(job, true)).(reports := s.reports + [Report(t, job, false, stores)])
  {
    var t, c := |s.threads|, s.tables[gen][job];
    tried := WithFiring(WithFlag(s, c, 1), Holding(job, gen, false));
    late := tried.(threads := s.threads + [Holding(job, gen, true)],
                   reports := s.reports + [Report(t, job, false, stores)]);
    done := WithFiring(s, Finished(job, true)).(reports := late.reports);
    assert WithFlag(late, c, 0).cells == s.cells;
  }
}
