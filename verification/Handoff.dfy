/** How the parent hands waiting client connections to the egress streams that the child opens for them. */
module Handoff {
  import opened Common
  import opened RunIds

  function ConnId(n: nat): string { "c" + Decimal(n) }

  lemma ConnIdInjective(m: nat, n: nat)
    ensures ConnId(m) == ConnId(n) <==> m == n
    ensures ConnId(m)[0] == 'c' && ConnId(m)[1..] == Decimal(m)
  {
    if ConnId(m) == ConnId(n) {
      assert Decimal(m) == ConnId(m)[1..] == ConnId(n)[1..] == Decimal(n);
      ParseDecimal(m);
      ParseDecimal(n);
    }
  }

  /** A client connection, with the target it asked for. */
  datatype Client = Client(name: nat, target: string)

  datatype OpenCommand = OpenCommand(connId: string, target: string)

  // ----- Any number of requests and streams, interleaved -----

  /** One call of OpenEgress between two of its atomic actions; `n` is the sequence number it drew. */
  datatype Stage =
    | Starting
    | Numbered(n: nat)
    | Registered(n: nat)
    | Undoing(n: nat)
    | Opened(n: nat)
    | Refused(drawn: Option<nat>)

  datatype Request = Request(client: Client, stage: Stage)

  /** A client is known by the position of its request. */
  datatype Handover = Handover(connId: string, client: nat)

  datatype State = State(
    connSeq: nat,
    requests: seq<Request>,
    pending: map<string, nat>,
    commands: seq<OpenCommand>,
    taken: seq<Handover>)

  datatype Event =
    | Arrive(client: Client)
    | Number(r: nat, childConnected: bool)
    | Register(r: nat)
    | Send(r: nat, delivered: bool, ok: bool)  // a failed send may still have reached the child
    | Undo(r: nat)
    | Serve(connId: string)                    // an egress stream announces any connection id

  const START := State(0, [], map[], [], [])

  predicate Enabled(s: State, e: Event) {
    match e
    case Arrive(_) => true
    case Number(r, _) => r < |s.requests| && s.requests[r].stage.Starting?
    case Register(r) => r < |s.requests| && s.requests[r].stage.Numbered?
    case Send(r, delivered, ok) => r < |s.requests| && s.requests[r].stage.Registered? && (ok ==> delivered)
    case Undo(r) => r < |s.requests| && s.requests[r].stage.Undoing?
    case Serve(_) => true
  }

  function At(s: State, r: nat, stage: Stage): seq<Request>
    requires r < |s.requests|
  {
    s.requests[r := s.requests[r].(stage := stage)]
  }

  /** takePending: whoever asks first gets the client, everybody else nothing. */
  function Take(s: State, connId: string): State {
    if connId in s.pending
    then s.(pending := s.pending - {connId}, taken := s.taken + [Handover(connId, s.pending[connId])])
    else s
  }

  function Next(s: State, e: Event): State {
    if !Enabled(s, e) then s else
    match e
    case Arrive(client) => s.(requests := s.requests + [Request(client, Starting)])
    case Number(r, childConnected) =>
      if childConnected
      then s.(connSeq := (s.connSeq + 1) % TWO_64, requests := At(s, r, Numbered((s.connSeq + 1) % TWO_64)))
      else s.(requests := At(s, r, Refused(None)))
    case Register(r) =>
      var n := s.requests[r].stage.n;
      s.(pending := s.pending[ConnId(n) := r], requests := At(s, r, Registered(n)))
    case Send(r, delivered, ok) =>
      var n := s.requests[r].stage.n;
      var cmd := OpenCommand(ConnId(n), s.requests[r].client.target);
      s.(commands := if delivered then s.commands + [cmd] else s.commands,
         requests := At(s, r, if ok then Opened(n) else Undoing(n)))
    case Undo(r) =>
      var n := s.requests[r].stage.n;
      Take(s, ConnId(n)).(requests := At(s, r, Refused(Some(n))))
    case Serve(connId) => Take(s, connId)
  }

  function After(events: seq<Event>): State {
    if events == [] then START else Next(After(events[..|events| - 1]), events[|events| - 1])
  }

  // ----- The invariant -----

  /** The sequence number a request has drawn, if any. */
  function NumberOf(stage: Stage): Option<nat> {
    match stage
    case Starting => None
    case Refused(drawn) => drawn
    case Numbered(n) => Some(n)
    case Registered(n) => Some(n)
    case Undoing(n) => Some(n)
    case Opened(n) => Some(n)
  }

  predicate HasRegistered(stage: Stage) {
    stage.Registered? || stage.Undoing? || stage.Opened? || (stage.Refused? && stage.drawn.Some?)
  }

  /** `connId` is the connection id of request `r`, which has registered its client under it. */
  ghost predicate Owns(s: State, r: nat, connId: string) {
    r < |s.requests| && HasRegistered(s.requests[r].stage) && connId == ConnId(NumberOf(s.requests[r].stage).value)
  }

  /** Some request that has registered its client asked for exactly this command. */
  ghost predicate Requested(s: State, c: OpenCommand) {
    exists r: nat :: Owns(s, r, c.connId) && s.requests[r].client.target == c.target
  }

  ghost predicate NumbersDistinct(s: State) {
    && (forall r | 0 <= r < |s.requests| && NumberOf(s.requests[r].stage).Some? ::
          NumberOf(s.requests[r].stage).value <= s.connSeq)
    && forall r, t | 0 <= r < |s.requests| && 0 <= t < |s.requests| && r != t && NumberOf(s.requests[r].stage).Some? ::
         NumberOf(s.requests[r].stage) != NumberOf(s.requests[t].stage)
  }

  ghost predicate Invariant(s: State) {
    && NumbersDistinct(s)
    && (forall id | id in s.pending :: Owns(s, s.pending[id], id) && !s.requests[s.pending[id]].stage.Refused?)
    && (forall h | h in s.taken :: Owns(s, h.client, h.connId) && h.connId !in s.pending)
    && (forall i, j | 0 <= i < j < |s.taken| :: s.taken[i].client != s.taken[j].client)
    && forall c | c in s.commands :: Requested(s, c)
  }

  /** Numbers drawn so far, counting only requests that found a child. */
  function Drawn(events: seq<Event>): nat {
    if events == [] then 0
    else
      var before, e := events[..|events| - 1], events[|events| - 1];
      Drawn(before) + if e.Number? && e.childConnected && Enabled(After(before), e) then 1 else 0
  }

  lemma {:induction false} ConnSeqCounts(events: seq<Event>)
    ensures After(events).connSeq == Drawn(events) % TWO_64
  {
    if events != [] {
      ConnSeqCounts(events[..|events| - 1]);
      ConnSeqStep(After(events[..|events| - 1]), events[|events| - 1]);
    }
  }

  lemma ConnSeqStep(s: State, e: Event)
    ensures Next(s, e).connSeq
         == if e.Number? && e.childConnected && Enabled(s, e) then (s.connSeq + 1) % TWO_64 else s.connSeq
  {
  }

  lemma {:induction false} InvariantHolds(events: seq<Event>)
    requires Drawn(events) < TWO_64
    ensures Invariant(After(events))
  {
    if events != [] {
      var before, e := events[..|events| - 1], events[|events| - 1];
      InvariantHolds(before);
      ConnSeqCounts(before);
      InvariantKept(After(before), e);
    }
  }

  lemma InvariantKept(s: State, e: Event)
    requires Invariant(s) && s.connSeq + (if e.Number? && e.childConnected && Enabled(s, e) then 1 else 0) < TWO_64
    ensures Invariant(Next(s, e))
  {
    if Enabled(s, e) {
      match e
      case Arrive(_) => SameOwners(s, Next(s, e));
      case Number(r, childConnected) => NumberKeeps(s, r, childConnected);
      case Register(r) => RegisterKeeps(s, r);
      case Send(r, delivered, ok) => SendKeeps(s, r, delivered, ok);
      case Undo(r) => UndoKeeps(s, r);
      case Serve(id) => TakeKeeps(s, id);
    }
  }

  /** `s'` has all requests of `s`, each with the ids it owned and the target it asked for. */
  ghost predicate KeepsOwners(s: State, s': State) {
    && |s.requests| <= |s'.requests|
    && (forall r | 0 <= r < |s.requests| :: s'.requests[r].client == s.requests[r].client)
    && forall r, id | Owns(s, r, id) :: Owns(s', r, id)
  }

  lemma StillRequested(s: State, s': State, c: OpenCommand)
    requires KeepsOwners(s, s') && Requested(s, c)
    ensures Requested(s', c)
  {
    var r: nat :| Owns(s, r, c.connId) && s.requests[r].client.target == c.target;
    assert Owns(s', r, c.connId);
  }

  /** A step that only moves requests along, keeping what each owns and asks for. */
  lemma SameOwners(s: State, s': State)
    requires Invariant(s) && NumbersDistinct(s') && KeepsOwners(s, s')
    requires s'.pending == s.pending && s'.taken == s.taken && s'.commands == s.commands
    requires forall id | id in s.pending :: !s'.requests[s.pending[id]].stage.Refused?
    ensures Invariant(s')
  {
    forall c | c in s'.commands ensures Requested(s', c) { StillRequested(s, s', c); }
  }

  lemma NumberKeeps(s: State, r: nat, childConnected: bool)
    requires Invariant(s) && Enabled(s, Number(r, childConnected))
    requires s.connSeq + (if childConnected then 1 else 0) < TWO_64
    ensures Invariant(Next(s, Number(r, childConnected)))
  {
    SameOwners(s, Next(s, Number(r, childConnected)));
  }

  lemma UndoKeeps(s: State, r: nat)
    requires Invariant(s) && Enabled(s, Undo(r))
    ensures Invariant(Next(s, Undo(r)))
  {
    var n := s.requests[r].stage.n;
    TakeKeeps(s, ConnId(n));
    var lent := Take(s, ConnId(n));
    forall other | other in lent.pending ensures lent.pending[other] != r {
      assert Owns(s, s.pending[other], other);
    }
    StageMoves(lent, r, Refused(Some(n)));
    SameOwners(lent, Next(s, Undo(r)));
  }

  /** A request that moves on from one stage to another without drawing a number. */
  lemma StageMoves(s: State, r: nat, stage: Stage)
    requires NumbersDistinct(s) && r < |s.requests| && NumberOf(stage) == NumberOf(s.requests[r].stage)
    requires HasRegistered(s.requests[r].stage) ==> HasRegistered(stage)
    ensures var s' := s.(requests := At(s, r, stage)); NumbersDistinct(s') && KeepsOwners(s, s')
  {
  }

  /** A request's id is free when it registers, so no waiting client is ever overwritten. */
  lemma RegisterFindsFree(s: State, r: nat)
    requires Invariant(s) && Enabled(s, Register(r))
    ensures ConnId(s.requests[r].stage.n) !in s.pending
    ensures forall h | h in s.taken :: h.client != r && h.connId != ConnId(s.requests[r].stage.n)
  {
    var n := s.requests[r].stage.n;
    forall t | 0 <= t < |s.requests| ensures !Owns(s, t, ConnId(n)) {
      if Owns(s, t, ConnId(n)) { ConnIdInjective(n, NumberOf(s.requests[t].stage).value); }
    }
  }

  lemma RegisterKeeps(s: State, r: nat)
    requires Invariant(s) && Enabled(s, Register(r))
    ensures Invariant(Next(s, Register(r)))
  {
    var s', id := Next(s, Register(r)), ConnId(s.requests[r].stage.n);
    RegisterFindsFree(s, r);
    assert KeepsOwners(s, s');
    assert Owns(s', r, id);
    forall c | c in s'.commands ensures Requested(s', c) { StillRequested(s, s', c); }
  }

  lemma SendKeeps(s: State, r: nat, delivered: bool, ok: bool)
    requires Invariant(s) && Enabled(s, Send(r, delivered, ok))
    ensures Invariant(Next(s, Send(r, delivered, ok)))
  {
    var s' := Next(s, Send(r, delivered, ok));
    assert KeepsOwners(s, s');
    assert Owns(s', r, ConnId(s.requests[r].stage.n));
    forall c | c in s'.commands ensures Requested(s', c) {
      if c in s.commands { StillRequested(s, s', c); }
    }
  }

  lemma TakeKeeps(s: State, id: string)
    requires Invariant(s)
    ensures Invariant(Take(s, id))
  {
    var s' := Take(s, id);
    assert KeepsOwners(s, s');
    if id in s.pending {
      var client := s.pending[id];
      forall h | h in s.taken ensures h.client != client {
        assert Owns(s, client, id) && Owns(s, h.client, h.connId);
      }
    }
    forall c | c in s'.commands ensures Requested(s', c) { StillRequested(s, s', c); }
  }

  // ----- Main results -----

  /** Below 2^64 requests, a connection id belongs to one request only, a pending entry belongs to the request
      that registered it, and registering never overwrites another client. */
  lemma IdsAreNeverReused(events: seq<Event>, r: nat, t: nat)
    requires Drawn(events) < TWO_64
    requires r < |After(events).requests| && t < |After(events).requests|
    ensures var s := After(events);
            var m, n := NumberOf(s.requests[r].stage), NumberOf(s.requests[t].stage);
            && (m.Some? && n.Some? && ConnId(m.value) == ConnId(n.value) ==> r == t)
            && (Enabled(s, Register(r)) ==> ConnId(s.requests[r].stage.n) !in s.pending)
  {
    var s := After(events);
    InvariantHolds(events);
    var m, n := NumberOf(s.requests[r].stage), NumberOf(s.requests[t].stage);
    if m.Some? && n.Some? { ConnIdInjective(m.value, n.value); }
    if Enabled(s, Register(r)) { RegisterFindsFree(s, r); }
  }

  /** Linear handoff: whatever ids streams announce, each client is handed over at most once, under its own id,
      and every command that carries this id asks for this client's target. */
  lemma HandoffIsLinear(events: seq<Event>, i: nat)
    requires Drawn(events) < TWO_64 && i < |After(events).taken|
    ensures var s := After(events);
            var h := s.taken[i];
            && Owns(s, h.client, h.connId)
            && (forall j | 0 <= j < |s.taken| && j != i :: s.taken[j].client != h.client)
            && h.connId !in s.pending
            && forall c | c in s.commands && c.connId == h.connId :: c.target == s.requests[h.client].client.target
  {
    InvariantHolds(events);
    OwnTarget(After(events), After(events).taken[i]);
  }

  lemma OwnTarget(s: State, h: Handover)
    requires Invariant(s) && h in s.taken
    ensures forall c | c in s.commands && c.connId == h.connId :: c.target == s.requests[h.client].client.target
  {
    forall c | c in s.commands && c.connId == h.connId ensures c.target == s.requests[h.client].client.target {
      assert Requested(s, c);
      var r: nat :| Owns(s, r, c.connId) && s.requests[r].client.target == c.target;
      ConnIdInjective(NumberOf(s.requests[r].stage).value, NumberOf(s.requests[h.client].stage).value);
    }
  }

  /** The child learns of a connection id only after its client has been registered. */
  lemma RegistrationPrecedesCommand(events: seq<Event>, c: OpenCommand)
    requires Drawn(events) < TWO_64 && c in After(events).commands
    ensures Requested(After(events), c)
  {
    InvariantHolds(events);
  }

  /** A request that failed leaves no client waiting. */
  lemma FailedRequestsDoNotWait(events: seq<Event>, id: string)
    requires Drawn(events) < TWO_64 && id in After(events).pending
    ensures var s := After(events);
            s.pending[id] < |s.requests| && !s.requests[s.pending[id]].stage.Refused?
  {
    InvariantHolds(events);
  }

  /** The client of request `r`, registered under number `n`, is waiting or has been handed over. */
  ghost predicate Safe(s: State, r: nat, n: nat) {
    (ConnId(n) in s.pending && s.pending[ConnId(n)] == r) || Handover(ConnId(n), r) in s.taken
  }

  /** A client that was registered is still waiting, or was handed over: to a stream, or back to its failed request. */
  lemma {:induction false} NoClientIsLost(events: seq<Event>, r: nat)
    requires Drawn(events) < TWO_64
    requires r < |After(events).requests| && HasRegistered(After(events).requests[r].stage)
    ensures Safe(After(events), r, NumberOf(After(events).requests[r].stage).value)
  {
    var before, e := events[..|events| - 1], events[|events| - 1];
    InvariantHolds(before);
    ConnSeqCounts(before);
    if r < |After(before).requests| && HasRegistered(After(before).requests[r].stage) {
      NoClientIsLost(before, r);
      StillSafe(After(before), e, r);
    } else {
      JustRegistered(After(before), e, r);
    }
  }

  lemma JustRegistered(s: State, e: Event, r: nat)
    requires r < |Next(s, e).requests| && HasRegistered(Next(s, e).requests[r].stage)
    requires r < |s.requests| ==> !HasRegistered(s.requests[r].stage)
    ensures Safe(Next(s, e), r, NumberOf(Next(s, e).requests[r].stage).value)
  {
  }

  lemma StillSafe(s: State, e: Event, r: nat)
    requires Invariant(s) && r < |s.requests| && HasRegistered(s.requests[r].stage)
    requires Safe(s, r, NumberOf(s.requests[r].stage).value)
    ensures NumberOf(Next(s, e).requests[r].stage) == NumberOf(s.requests[r].stage)
    ensures Safe(Next(s, e), r, NumberOf(s.requests[r].stage).value)
  {
    var n := NumberOf(s.requests[r].stage).value;
    if Enabled(s, e) {
      match e
      case Register(t) => RegisterFindsFree(s, t);
      case Serve(id) => TakeIsSafe(s, id, r, n);
      case Undo(t) => TakeIsSafe(s, ConnId(s.requests[t].stage.n), r, n);
      case _ =>
    }
  }

  lemma TakeIsSafe(s: State, id: string, r: nat, n: nat)
    requires Safe(s, r, n)
    ensures Safe(Take(s, id), r, n)
  {
    var s' := Take(s, id);
    if id in s.pending {
      assert s'.taken[|s.taken|] == Handover(id, s.pending[id]);
      assert forall h | h in s.taken :: h in s'.taken;
    }
  }

  // ----- The server itself -----

  class Server {
    var pending: map<string, Client>
    var connSeq: Uint64
    var childConnected: bool
    var commands: seq<OpenCommand>  // pushed to the child
    ghost var events: seq<Event>

    /** The server is what the requests and streams so far have made of it. */
    ghost predicate Valid() reads this { Matches(pending, connSeq, commands, After(events)) }

    constructor ()
      ensures Valid() && pending == map[] && connSeq == 0 && !childConnected && commands == [] && events == []
    {
      pending, connSeq, childConnected, commands, events := map[], 0, false, [], [];
    }

    method DrawConnId() returns (cid: string)
      modifies `connSeq
      ensures connSeq == Bump(old(connSeq)) && cid == ConnId(connSeq)
    {
      connSeq := Bump(connSeq);
      var digits := Itoa(connSeq);
      cid := "c" + digits;
    }

    method RegisterPending(id: string, c: Client)
      modifies `pending
      ensures pending == old(pending)[id := c]
    {
      pending := pending[id := c];
    }

    /** Removes and returns the client waiting under `id`, if any. */
    method TakePending(id: string) returns (c: Option<Client>)
      modifies `pending
      ensures c == if id in old(pending) then Some(old(pending)[id]) else None
      ensures pending == old(pending) - {id}
    {
      c := if id in pending then Some(pending[id]) else None;
      pending := pending - {id};
    }

    /** An egress stream announces `id` and gets the client waiting under it, if any. */
    method Claim(id: string) returns (c: Option<Client>)
      requires Valid()
      modifies `pending, `events
      ensures Valid() && events == old(events) + [Serve(id)]
      ensures c == if id in old(pending) then Some(old(pending)[id]) else None
      ensures pending == old(pending) - {id}
    {
      AfterSnoc(events, Serve(id));
      c := TakePending(id);
      events := events + [Serve(id)];
    }

    /** Undisturbed, a failed request leaves no client waiting under its id and a successful one exactly this client.
        A send that fails may have `reached` the child all the same. */
    method OpenEgress(client: Client, reached: bool, sendOk: bool) returns (ok: bool)
      requires Valid() && (sendOk ==> reached)
      modifies this
      ensures Valid()
      ensures events == old(events) + OpenEvents(|After(old(events)).requests|, client, childConnected, reached, sendOk)
      ensures ok <==> old(childConnected) && sendOk
      ensures childConnected == old(childConnected)
      ensures connSeq == if old(childConnected) then Bump(old(connSeq)) else old(connSeq)
      ensures pending == if !old(childConnected) then old(pending)
                         else if ok then old(pending)[ConnId(connSeq) := client]
                         else old(pending) - {ConnId(connSeq)}
      ensures commands == if childConnected && reached
                          then old(commands) + [OpenCommand(ConnId(connSeq), client.target)] else old(commands)
    {
      OpeningMatches(pending, connSeq, commands, events, client, childConnected, reached, sendOk);
      events := events + OpenEvents(|After(events).requests|, client, childConnected, reached, sendOk);
      if !childConnected { return false; }
      var cid := DrawConnId();
      RegisterPending(cid, client);
      if reached { commands := commands + [OpenCommand(cid, client.target)]; }
      if !sendOk {
        var _ := TakePending(cid);
        return false;
      }
      return true;
    }
  }

  lemma AfterSnoc(events: seq<Event>, e: Event)
    ensures After(events + [e]) == Next(After(events), e)
  {
    assert (events + [e])[..|events|] == events;
  }

  /** The steps of request `r` when nothing interleaves with it. */
  function OpenEvents(r: nat, client: Client, childConnected: bool, reached: bool, sendOk: bool): seq<Event> {
    if !childConnected then [Arrive(client), Number(r, false)]
    else if sendOk then [Arrive(client), Number(r, true), Register(r), Send(r, true, true)]
    else [Arrive(client), Number(r, true), Register(r), Send(r, reached, false), Undo(r)]
  }

  lemma AfterTwo(events: seq<Event>, a: Event, b: Event)
    ensures After(events + [a, b]) == Next(Next(After(events), a), b)
  {
    assert events + [a, b] == events + [a] + [b];
    AfterSnoc(events, a);
    AfterSnoc(events + [a], b);
  }

  lemma AfterFour(events: seq<Event>, a: Event, b: Event, c: Event, d: Event)
    ensures After(events + [a, b, c, d]) == Next(Next(Next(Next(After(events), a), b), c), d)
  {
    assert events + [a, b, c, d] == events + [a, b] + [c, d];
    AfterTwo(events, a, b);
    AfterTwo(events + [a, b], c, d);
  }

  lemma AfterFive(events: seq<Event>, a: Event, b: Event, c: Event, d: Event, e: Event)
    ensures After(events + [a, b, c, d, e]) == Next(Next(Next(Next(Next(After(events), a), b), c), d), e)
  {
    assert events + [a, b, c, d, e] == events + [a, b, c, d] + [e];
    AfterFour(events, a, b, c, d);
    AfterSnoc(events + [a, b, c, d], e);
  }

  /** What these steps come to. */
  function Opening(s: State, client: Client, childConnected: bool, reached: bool, sendOk: bool): State {
    var r, n := |s.requests|, (s.connSeq + 1) % TWO_64;
    var waiting, stage := s.pending[ConnId(n) := r], if sendOk then Opened(n) else Refused(Some(n));
    if !childConnected then s.(requests := s.requests + [Request(client, Refused(None))])
    else
      State(n, s.requests + [Request(client, stage)],
            if sendOk then waiting else waiting - {ConnId(n)},
            if reached then s.commands + [OpenCommand(ConnId(n), client.target)] else s.commands,
            if sendOk then s.taken else s.taken + [Handover(ConnId(n), r)])
  }

  /** The server's fields are those of state `s`, and `pending` holds the very clients that wait there. */
  ghost predicate Matches(pending: map<string, Client>, connSeq: Uint64, commands: seq<OpenCommand>, s: State) {
    && connSeq == s.connSeq && commands == s.commands && pending.Keys == s.pending.Keys
    && forall id | id in pending :: s.pending[id] < |s.requests| && pending[id] == s.requests[s.pending[id]].client
  }

  /** The server's own run of a request, undisturbed, is a run of the machine. */
  lemma OpeningMatches(
      pending: map<string, Client>, connSeq: Uint64, commands: seq<OpenCommand>, events: seq<Event>, client: Client,
      childConnected: bool, reached: bool, sendOk: bool)
    requires Matches(pending, connSeq, commands, After(events)) && (sendOk ==> reached)
    ensures var opening := OpenEvents(|After(events).requests|, client, childConnected, reached, sendOk);
            var s', n, id := After(events + opening), Bump(connSeq), ConnId(Bump(connSeq));
            var sent := if reached then commands + [OpenCommand(id, client.target)] else commands;
            if !childConnected then Matches(pending, connSeq, commands, s')
            else if sendOk then Matches(pending[id := client], n, sent, s')
            else Matches(pending[id := client] - {id}, n, sent, s')
  {
    OpeningIsARun(events, client, childConnected, reached, sendOk);
    OpeningEffect(pending, connSeq, commands, After(events), client, childConnected, reached, sendOk);
  }

  lemma OpeningEffect(
      pending: map<string, Client>, connSeq: Uint64, commands: seq<OpenCommand>, s: State, client: Client,
      childConnected: bool, reached: bool, sendOk: bool)
    requires Matches(pending, connSeq, commands, s)
    ensures var s', n, id := Opening(s, client, childConnected, reached, sendOk), Bump(connSeq), ConnId(Bump(connSeq));
            var sent := if reached then commands + [OpenCommand(id, client.target)] else commands;
            if !childConnected then Matches(pending, connSeq, commands, s')
            else if sendOk then Matches(pending[id := client], n, sent, s')
            else Matches(pending[id := client] - {id}, n, sent, s')
  {
  }

  lemma OpeningIsARun(events: seq<Event>, client: Client, childConnected: bool, reached: bool, sendOk: bool)
    requires sendOk ==> reached
    ensures After(events + OpenEvents(|After(events).requests|, client, childConnected, reached, sendOk))
         == Opening(After(events), client, childConnected, reached, sendOk)
  {
    var s := After(events);
    var r, n := |s.requests|, (s.connSeq + 1) % TWO_64;
    if childConnected {
      NumberAndRegister(s, client);
      SendAndUndo(s, client, n, reached, sendOk);
      if sendOk {
        AfterFour(events, Arrive(client), Number(r, true), Register(r), Send(r, true, true));
      } else {
        AfterFive(events, Arrive(client), Number(r, true), Register(r), Send(r, reached, false), Undo(r));
      }
    } else {
      AfterTwo(events, Arrive(client), Number(r, false));
    }
  }

  function Registering(s: State, client: Client, n: nat): State {
    s.(connSeq := n, pending := s.pending[ConnId(n) := |s.requests|],
       requests := s.requests + [Request(client, Registered(n))])
  }

  lemma NumberAndRegister(s: State, client: Client)
    ensures var r := |s.requests|;
            Next(Next(Next(s, Arrive(client)), Number(r, true)), Register(r))
            == Registering(s, client, (s.connSeq + 1) % TWO_64)
  {
    var n := (s.connSeq + 1) % TWO_64;
    assert Next(Next(s, Arrive(client)), Number(|s.requests|, true))
        == s.(connSeq := n, requests := s.requests + [Request(client, Numbered(n))]);
  }

  lemma SendAndUndo(s: State, client: Client, n: nat, reached: bool, sendOk: bool)
    requires n == (s.connSeq + 1) % TWO_64 && (sendOk ==> reached)
    ensures var r := |s.requests|;
            var sent := Next(Registering(s, client, n), Send(r, reached, sendOk));
            (if sendOk then sent else Next(sent, Undo(r))) == Opening(s, client, true, reached, sendOk)
  {
  }
}
