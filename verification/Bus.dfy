/** The in-process bus: fan-out by topic over bounded channels that drop what does not fit. */
module Bus {
  import opened Common

  const CAPACITY := 128

  /** The history of one subscription: `queue` waits in the channel, `published` is everything published on
      its topic since it subscribed. */
  datatype Feed<T> = Feed(queue: seq<T>, received: seq<T>, published: seq<T>, dropped: nat)

  function AfterPublish<T>(f: Feed<T>, m: T): Feed<T> {
    if |f.queue| < CAPACITY
    then f.(queue := f.queue + [m], published := f.published + [m])
    else f.(published := f.published + [m], dropped := f.dropped + 1)
  }

  function AfterReceive<T>(f: Feed<T>): Feed<T> {
    if f.queue == [] then f else f.(queue := f.queue[1..], received := f.received + [f.queue[0]])
  }

  datatype Action<T> = Publish(m: T) | Receive

  function FeedAfter<T>(actions: seq<Action<T>>): Feed<T> {
    if actions == [] then Feed([], [], [], 0)
    else
      var f := FeedAfter(actions[..|actions| - 1]);
      match actions[|actions| - 1]
      case Publish(m) => AfterPublish(f, m)
      case Receive => AfterReceive(f)
  }

  /** `a` is `b` with some elements left out. */
  predicate IsSubsequence<T(==)>(a: seq<T>, b: seq<T>) {
    a == [] ||
    (b != [] && (IsSubsequence(a, b[..|b| - 1])
                 || (a[|a| - 1] == b[|b| - 1] && IsSubsequence(a[..|a| - 1], b[..|b| - 1]))))
  }

  lemma SubsequenceSnoc<T>(a: seq<T>, b: seq<T>, m: T)
    requires IsSubsequence(a, b)
    ensures IsSubsequence(a, b + [m]) && IsSubsequence(a + [m], b + [m])
  {
    assert (b + [m])[..|b|] == b && (a + [m])[..|a|] == a;
  }

  lemma {:induction false} WholeSubsequence<T>(a: seq<T>, b: seq<T>)
    requires IsSubsequence(a, b)
    ensures |a| <= |b| && (|a| == |b| ==> a == b)
  {
    if a != [] {
      var b' := b[..|b| - 1];
      if IsSubsequence(a, b') {
        WholeSubsequence(a, b');
      } else {
        WholeSubsequence(a[..|a| - 1], b');
        assert a == a[..|a| - 1] + [a[|a| - 1]] && b == b' + [b[|b| - 1]];
      }
    }
  }

  predicate Faithful<T(==)>(f: Feed<T>) {
    && IsSubsequence(f.received + f.queue, f.published)
    && |f.queue| <= CAPACITY
    && |f.published| == |f.received| + |f.queue| + f.dropped
    && (f.dropped == 0 <==> f.received + f.queue == f.published)
  }

  /** Over every history of publishes and receives: what was received and what waits is, in order, part of what
      was published; the rest was counted as dropped; and nothing is lost as long as nothing was dropped. */
  lemma {:induction false} FeedIsFaithful<T>(actions: seq<Action<T>>)
    ensures Faithful(FeedAfter(actions))
  {
    if actions != [] {
      var f := FeedAfter(actions[..|actions| - 1]);
      FeedIsFaithful(actions[..|actions| - 1]);
      match actions[|actions| - 1]
      case Publish(m) => PublishKeeps(f, m);
      case Receive => ReceiveKeeps(f);
    }
  }

  lemma PublishKeeps<T>(f: Feed<T>, m: T)
    requires Faithful(f)
    ensures Faithful(AfterPublish(f, m))
  {
    var f' := AfterPublish(f, m);
    SubsequenceSnoc(f.received + f.queue, f.published, m);
    assert f.received + (f.queue + [m]) == f.received + f.queue + [m];
    WholeSubsequence(f'.received + f'.queue, f'.published);
  }

  lemma ReceiveKeeps<T>(f: Feed<T>)
    requires Faithful(f)
    ensures Faithful(AfterReceive(f))
  {
    var f' := AfterReceive(f);
    assert f'.received + f'.queue == f.received + f.queue;
  }

  /** The receives that found a message waiting. */
  function Served<T>(actions: seq<Action<T>>): nat {
    if actions == [] then 0
    else
      var before, a := actions[..|actions| - 1], actions[|actions| - 1];
      Served(before) + if a.Receive? && |FeedAfter(before).queue| > 0 then 1 else 0
  }

  function Published<T>(actions: seq<Action<T>>): seq<T> {
    if actions == [] then []
    else
      var before, a := actions[..|actions| - 1], actions[|actions| - 1];
      if a.Publish? then Published(before) + [a.m] else Published(before)
  }

  /** Every receive that finds a message waiting consumes one, and nothing else is received or counted as published. */
  lemma {:induction false} ReceivesConsume<T>(actions: seq<Action<T>>)
    ensures |FeedAfter(actions).received| == Served(actions)
    ensures FeedAfter(actions).published == Published(actions)
  {
    if actions != [] { ReceivesConsume(actions[..|actions| - 1]); }
  }

  /** A publish joins the end of the queue if fewer than 128 wait; a receive takes the head of the queue. */
  lemma StepsOfAFeed<T>(f: Feed<T>, m: T)
    ensures AfterPublish(f, m).queue == if |f.queue| < 128 then f.queue + [m] else f.queue
    ensures AfterPublish(f, m).received == f.received && AfterPublish(f, m).published == f.published + [m]
    ensures AfterPublish(f, m).dropped == if |f.queue| < 128 then f.dropped else f.dropped + 1
    ensures f.queue != [] ==> AfterReceive(f) == f.(queue := f.queue[1..], received := f.received + [f.queue[0]])
    ensures f.queue == [] ==> AfterReceive(f) == f
  {
  }

  /** Nothing is dropped while fewer than 128 messages wait: a publish at position `i` is dropped exactly
      when the channel is full at that moment. */
  lemma DropsOnlyWhenFull<T>(actions: seq<Action<T>>, i: nat)
    requires i < |actions| && actions[i].Publish?
    ensures var before, after := FeedAfter(actions[..i]), FeedAfter(actions[..i + 1]);
            && (after.dropped == before.dropped + 1 <==> |before.queue| == CAPACITY)
            && (after.dropped == before.dropped <==> after.queue == before.queue + [actions[i].m])
  {
    assert actions[..i + 1][..i] == actions[..i];
    FeedIsFaithful(actions[..i]);
  }

  class Channel<T> {
    var queue: seq<T>
    ghost var feed: Feed<T>
    ghost var actions: seq<Action<T>>

    /** The channel is what the publishes and receives so far have made of an empty one. */
    ghost predicate Valid() reads this { feed == FeedAfter(actions) && feed.queue == queue }

    constructor ()
      ensures Valid() && feed == Feed([], [], [], 0) && actions == []
    {
      queue := [];
      feed, actions := Feed([], [], [], 0), [];
    }

    lemma LosesNothingButDrops()
      requires Valid()
      ensures Faithful(feed)
    {
      FeedIsFaithful(actions);
    }

    /** A send that never blocks. */
    method TrySend(m: T)
      requires Valid()
      modifies this
      ensures Valid() && feed == AfterPublish(old(feed), m) && actions == old(actions) + [Action.Publish(m)]
      ensures queue == if |old(queue)| < 128 then old(queue) + [m] else old(queue)
    {
      assert (actions + [Action.Publish(m)])[..|actions|] == actions;
      feed, actions := AfterPublish(feed, m), actions + [Action.Publish(m)];
      if |queue| < CAPACITY { queue := queue + [m]; }
    }

    method TryReceive() returns (m: Option<T>)
      requires Valid()
      modifies this
      ensures Valid() && feed == AfterReceive(old(feed)) && actions == old(actions) + [Receive]
      ensures old(queue) == [] ==> m == None && queue == [] && feed.received == old(feed.received)
      ensures old(queue) != [] ==>
                && m == Some(old(queue)[0]) && queue == old(queue)[1..]
                && feed.received == old(feed.received) + [old(queue)[0]]
    {
      assert (actions + [Receive])[..|actions|] == actions;
      feed, actions := AfterReceive(feed), actions + [Receive];
      if queue == [] { return None; }
      m := Some(queue[0]);
      queue := queue[1..];
    }
  }

  class Bus<T> {
    var subs: map<string, seq<Channel<T>>>

    /** No channel is subscribed twice. */
    ghost predicate Valid()
      reads this, set t, c | t in subs && c in subs[t] :: c
    {
      && (forall t, c | t in subs && c in subs[t] :: c.Valid())
      && (forall t, i, j | t in subs && 0 <= i < j < |subs[t]| :: subs[t][i] != subs[t][j])
      && forall t, u, c | t in subs && u in subs && c in subs[t] && c in subs[u] :: t == u
    }

    constructor ()
      ensures Valid() && subs == map[]
    {
      subs := map[];
    }

    function Subscribers(topic: string): (list: seq<Channel<T>>)
      reads this
      ensures topic in subs ==> list == subs[topic]
      ensures topic !in subs ==> list == []
    {
      if topic in subs then subs[topic] else []
    }

    method Subscribe(topic: string) returns (ch: Channel<T>)
      requires Valid()
      modifies this
      ensures Valid() && fresh(ch) && ch.feed == Feed([], [], [], 0)
      ensures subs == old(subs)[topic := old(Subscribers(topic)) + [ch]]
    {
      ch := new Channel();
      subs := subs[topic := Subscribers(topic) + [ch]];
    }

    /** Every subscriber of the topic is offered the message once; nobody else notices. */
    method Publish(topic: string, m: T)
      requires Valid()
      modifies Subscribers(topic)
      ensures Valid()
      ensures forall c | c in Subscribers(topic) ::
                && c.feed == AfterPublish(old(c.feed), m)
                && c.queue == if |old(c.queue)| < 128 then old(c.queue) + [m] else old(c.queue)
    {
      var list := Subscribers(topic);
      for i := 0 to |list|
        invariant Valid()
        invariant forall k | 0 <= k < i :: list[k].feed == AfterPublish(old(list[k].feed), m)
        invariant forall k | i <= k < |list| :: list[k].feed == old(list[k].feed)
      {
        assert list[i] in subs[topic];
        list[i].TrySend(m);
      }
      forall c | c in list
        ensures c.queue == if |old(c.queue)| < 128 then old(c.queue) + [m] else old(c.queue)
      {
        assert c.Valid() && old(c.Valid());
        StepsOfAFeed(old(c.feed), m);
      }
    }
  }
}
