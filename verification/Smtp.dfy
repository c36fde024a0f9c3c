/** Direct mail delivery: one domain per message, its mail hosts in order of preference, one verdict. */
module Smtp {
  import opened Common

  // ----- The recipients' domain -----

  function Lower(c: char): (l: char)
    ensures 'A' <= c <= 'Z' ==> l as int == c as int + 32
    ensures !('A' <= c <= 'Z') ==> l == c
  {
    if 'A' <= c <= 'Z' then c + ('a' - 'A') else c
  }

  function ToLower(s: string): (l: string)
    ensures |l| == |s| && forall i | 0 <= i < |s| :: l[i] == Lower(s[i])
  {
    seq(|s|, i requires 0 <= i < |s| => Lower(s[i]))
  }

  /** The position of the last '@', or -1. */
  function LastAt(s: string): (at: int)
    ensures -1 <= at < |s|
    ensures at >= 0 ==> s[at] == '@'
    ensures forall i | at < i < |s| :: s[i] != '@'
  {
    if s == [] then -1 else if s[|s| - 1] == '@' then |s| - 1 else LastAt(s[..|s| - 1])
  }

  /** What follows the last '@' of an address, in lower case; an address without a domain has none. */
  function DomainOf(address: string): (domain: Option<string>)
    ensures domain.None? <==>
              address == "" || address[|address| - 1] == '@' || forall i | 0 <= i < |address| :: address[i] != '@'
    ensures domain.Some? ==>
              exists at ::
                && 0 <= at < |address| - 1 && address[at] == '@'
                && (forall i | at < i < |address| :: address[i] != '@')
                && |domain.value| == |address| - 1 - at
                && forall i | 0 <= i < |domain.value| :: domain.value[i] == Lower(address[at + 1 + i])
  {
    var at := LastAt(address);
    if at < 0 || at == |address| - 1 then None else Some(ToLower(address[at + 1..]))
  }

  /** The domain all recipients share; there is one exactly if there are recipients, all with this domain. */
  method SingleDomain(rcpts: seq<string>) returns (domain: Option<string>)
    ensures domain.Some? <==>
              rcpts != [] && DomainOf(rcpts[0]).Some? && forall r | r in rcpts :: DomainOf(r) == DomainOf(rcpts[0])
    ensures domain.Some? ==> domain == DomainOf(rcpts[0])
  {
    if rcpts == [] { return None; }
    var shared := "";
    for i := 0 to |rcpts|
      invariant i == 0 ==> shared == ""
      invariant i > 0 ==> shared != "" && forall k | 0 <= k < i :: DomainOf(rcpts[k]) == Some(shared)
    {
      var r := rcpts[i];
      assert r in rcpts && rcpts[0] in rcpts;
      var d := DomainOf(r);
      if d.None? { return None; }
      assert |d.value| > 0;
      if shared == "" {
        shared := d.value;
      } else if d.value != shared {
        return None;
      }
    }
    return Some(shared);
  }

  // ----- Mail hosts -----

  datatype Mx = Mx(pref: int, host: string)

  predicate SortedByPref(mxs: seq<Mx>) { forall i, j | 0 <= i < j < |mxs| :: mxs[i].pref <= mxs[j].pref }

  function One(mx: Mx, pref: int): (r: seq<Mx>)
    ensures mx.pref == pref ==> r == [mx]
    ensures mx.pref != pref ==> r == []
  {
    if mx.pref == pref then [mx] else []
  }

  /** The records of one preference, in the order given. */
  function WithPref(mxs: seq<Mx>, pref: int): seq<Mx> {
    if mxs == [] then [] else One(mxs[0], pref) + WithPref(mxs[1..], pref)
  }

  function Insert(mx: Mx, sorted: seq<Mx>): (r: seq<Mx>)
    requires SortedByPref(sorted)
    ensures SortedByPref(r)
    ensures forall x | x in r :: x == mx || x in sorted
  {
    if sorted == [] || mx.pref <= sorted[0].pref then [mx] + sorted
    else
      var rest := Insert(mx, sorted[1..]);
      assert forall x | x in rest :: sorted[0].pref <= x.pref;
      assert forall i | 0 <= i < |rest| :: rest[i] in rest;
      [sorted[0]] + rest
  }

  /** A stable sort by preference. */
  function StableSort(mxs: seq<Mx>): (r: seq<Mx>)
    ensures SortedByPref(r)
  {
    if mxs == [] then [] else Insert(mxs[0], StableSort(mxs[1..]))
  }

  lemma WithPrefCons(mx: Mx, mxs: seq<Mx>, pref: int)
    ensures WithPref([], pref) == []
    ensures WithPref([mx] + mxs, pref) == One(mx, pref) + WithPref(mxs, pref)
  {
    assert ([mx] + mxs)[1..] == mxs;
  }

  lemma SwapEmpty<T>(a: seq<T>, b: seq<T>, c: seq<T>)
    requires a == [] || b == []
    ensures a + (b + c) == b + (a + c)
  {
  }

  lemma {:induction false} InsertIsStable(mx: Mx, sorted: seq<Mx>, pref: int)
    requires SortedByPref(sorted)
    ensures WithPref(Insert(mx, sorted), pref) == One(mx, pref) + WithPref(sorted, pref)
  {
    if sorted == [] || mx.pref <= sorted[0].pref {
      WithPrefCons(mx, sorted, pref);
    } else {
      var first, rest := sorted[0], sorted[1..];
      InsertIsStable(mx, rest, pref);
      WithPrefCons(first, Insert(mx, rest), pref);
      SwapEmpty(One(first, pref), One(mx, pref), WithPref(rest, pref));
    }
  }

  lemma {:induction false} SortIsStable(mxs: seq<Mx>, pref: int)
    ensures WithPref(StableSort(mxs), pref) == WithPref(mxs, pref)
  {
    if mxs != [] {
      SortIsStable(mxs[1..], pref);
      InsertIsStable(mxs[0], StableSort(mxs[1..]), pref);
    }
  }

  lemma {:induction false} WithPrefMember(mxs: seq<Mx>, pref: int)
    ensures WithPref(mxs, pref) != [] <==> exists i :: 0 <= i < |mxs| && mxs[i].pref == pref
  {
    if mxs != [] {
      WithPrefMember(mxs[1..], pref);
      if i :| 0 <= i < |mxs| && mxs[i].pref == pref && i > 0 { assert mxs[1..][i - 1].pref == pref; }
    }
  }

  lemma FirstPrefAtMost(a: seq<Mx>, b: seq<Mx>)
    requires a != [] && b != [] && SortedByPref(b) && WithPref(a, a[0].pref) == WithPref(b, a[0].pref)
    ensures b[0].pref <= a[0].pref
  {
    WithPrefMember(b, a[0].pref);
  }

  lemma FirstsAgree(a: seq<Mx>, b: seq<Mx>)
    requires a != [] && b != [] && SortedByPref(a) && SortedByPref(b)
    requires WithPref(a, a[0].pref) == WithPref(b, a[0].pref) && WithPref(a, b[0].pref) == WithPref(b, b[0].pref)
    ensures a[0] == b[0]
  {
    FirstPrefAtMost(a, b);
    FirstPrefAtMost(b, a);
    WithPrefOfRest(a, a[0].pref);
    WithPrefOfRest(b, a[0].pref);
    assert WithPref(a, a[0].pref)[0] == a[0] && WithPref(b, a[0].pref)[0] == b[0];
  }

  lemma WithPrefOfRest(a: seq<Mx>, pref: int)
    requires a != []
    ensures WithPref(a, pref) == One(a[0], pref) + WithPref(a[1..], pref)
  {
  }

  /** Any stable sort by preference gives the same list. */
  lemma {:induction false} StableSortIsUnique(a: seq<Mx>, b: seq<Mx>)
    requires SortedByPref(a) && SortedByPref(b)
    requires forall pref :: WithPref(a, pref) == WithPref(b, pref)
    ensures a == b
  {
    if a == [] || b == [] {
      var all := a + b;
      assert all != [] ==> WithPref(all, all[0].pref) != [];
      assert a + b == if a == [] then b else a;
    } else {
      FirstsAgree(a, b);
      forall pref ensures WithPref(a[1..], pref) == WithPref(b[1..], pref) {
        WithPrefOfRest(a, pref);
        WithPrefOfRest(b, pref);
        var first := if a[0].pref == pref then 1 else 0;
        assert WithPref(a[1..], pref) == WithPref(a, pref)[first..];
        assert WithPref(b[1..], pref) == WithPref(b, pref)[first..];
      }
      StableSortIsUnique(a[1..], b[1..]);
      assert a == [a[0]] + a[1..] && b == [b[0]] + b[1..];
    }
  }

  function TrimDot(host: string): (h: string)
    ensures host != "" && host[|host| - 1] == '.' ==> h + "." == host
    ensures host == "" || host[|host| - 1] != '.' ==> h == host
  {
    if host != "" && host[|host| - 1] == '.' then host[..|host| - 1] else host
  }

  function Hosts(mxs: seq<Mx>): seq<string> {
    if mxs == [] then [] else Hosts(mxs[..|mxs| - 1]) + [TrimDot(mxs[|mxs| - 1].host)]
  }

  lemma {:induction false} HostsAt(mxs: seq<Mx>, i: nat)
    requires i < |mxs|
    ensures |Hosts(mxs)| == |mxs| && Hosts(mxs)[i] == TrimDot(mxs[i].host)
  {
    var n := |mxs| - 1;
    if i < n {
      HostsAt(mxs[..n], i);
    } else if n > 0 {
      HostsAt(mxs[..n], n - 1);
    }
  }

  /** What the name service answers for a domain. */
  datatype Names = Names(mx: Option<seq<Mx>>, addressFound: bool)

  /** The hosts to try (section 5.1 of RFC 5321): the MX hosts by preference, or else the domain itself. */
  function HostsFor(domain: string, names: Names): Option<seq<string>> {
    if names.mx.Some? && names.mx.value != [] then Some(Hosts(StableSort(names.mx.value)))
    else if names.addressFound then Some([domain])
    else None
  }

  method ResolveMx(domain: string, names: Names) returns (hosts: Option<seq<string>>)
    ensures hosts == HostsFor(domain, names)
    ensures hosts.Some? ==> hosts.value != []
    ensures names.mx.Some? && names.mx.value != [] ==>
              var sorted := StableSort(names.mx.value);
              && hosts.Some? && |hosts.value| == |sorted|
              && forall i | 0 <= i < |sorted| ::
                   var dotted := sorted[i].host != "" && sorted[i].host[|sorted[i].host| - 1] == '.';
                   (if dotted then hosts.value[i] + "." else hosts.value[i]) == sorted[i].host
    ensures names.mx.None? || names.mx.value == [] ==> hosts == if names.addressFound then Some([domain]) else None
  {
    if names.mx.Some? && names.mx.value != [] {
      var sorted := StableSort(names.mx.value);
      SortIsStable(names.mx.value, names.mx.value[0].pref);
      var list := [];
      assert sorted[..0] == [];
      for i := 0 to |sorted|
        invariant |list| == i && list == Hosts(sorted[..i])
      {
        assert sorted[..i + 1][..i] == sorted[..i];
        list := list + [TrimDot(sorted[i].host)];
      }
      assert sorted[..|sorted|] == sorted;
      forall i | 0 <= i < |sorted| ensures list[i] == TrimDot(sorted[i].host) { HostsAt(sorted, i); }
      return Some(list);
    }
    if names.addressFound { return Some([domain]); }
    return None;
  }

  // ----- Delivery and verdict -----

  /** One delivery attempt: accepted, no session at all, or an error whose text may begin with an SMTP code. */
  datatype Delivery = Accepted | NoSession(text: string) | Refused(text: string)

  /** The leading three characters of an error text that starts with a digit. */
  function ErrorCode(text: string): string { if |text| >= 3 && '0' <= text[0] <= '9' then text[..3] else "" }

  function CodeOf(d: Delivery): string {
    match d
    case Accepted => "250"
    case NoSession(_) => ""
    case Refused(text) => ErrorCode(text)
  }

  function MessageOf(d: Delivery): string {
    match d
    case Accepted => "accepted"
    case NoSession(_) => ""
    case Refused(text) => text
  }

  predicate IsPermanent(code: string) { code != "" && code[0] == '5' }

  datatype Status = SENT | DEFERRED | FAILED

  datatype Result = Result(
    accepted: bool,
    status: Status,
    code: string,
    message: string,
    mxHost: string,
    hasError: bool)

  const REJECTED := Result(false, FAILED, "", "", "", true)

  /** The result once the last tried host has answered. */
  function Verdict(host: string, last: Delivery): (r: Result)
    ensures r.accepted <==> last.Accepted?
    ensures r.status == SENT <==> last.Accepted?
    ensures r.status == FAILED <==> last.Refused? && |last.text| >= 3 && last.text[0] == '5'
    ensures r.hasError <==> !r.accepted
    ensures r.mxHost == host
    ensures last.Accepted? ==> r.code == "250" && r.message == "accepted"
    ensures last.NoSession? ==> r.code == "" && r.message == ""
    ensures last.Refused? ==> r.message == last.text
    ensures last.Refused? ==>
              r.code == if |last.text| >= 3 && '0' <= last.text[0] <= '9' then last.text[..3] else ""
  {
    var code := CodeOf(last);
    Result(last.Accepted?, if last.Accepted? then SENT else if IsPermanent(code) then FAILED else DEFERRED,
           code, MessageOf(last), host, !last.Accepted?)
  }

  /** The attempts made on `hosts` from the `from`-th on: up to the first success, or all. */
  function Attempts(hosts: seq<string>, deliver: (nat, string) -> Delivery, from: nat): (n: nat)
    requires from <= |hosts|
    ensures from <= n <= |hosts|
    ensures forall i: nat | from <= i < n - 1 :: deliver(i, hosts[i]) != Accepted
    ensures n < |hosts| ==> n > from && deliver(n - 1, hosts[n - 1]) == Accepted
    decreases |hosts| - from
  {
    if from == |hosts| then from
    else if deliver(from, hosts[from]) == Accepted then from + 1
    else Attempts(hosts, deliver, from + 1)
  }

  /** Handles one send command.  `deliver(i, h)` is how attempt `i`, on host `h`, goes.  Returns the results it
      reports and the hosts it tried. */
  method Handle(rcpts: seq<string>, names: string -> Names, deliver: (nat, string) -> Delivery)
    returns (reports: seq<Result>, tried: seq<string>)
    ensures var shared := rcpts != [] && DomainOf(rcpts[0]).Some?
                          && forall r | r in rcpts :: DomainOf(r) == DomainOf(rcpts[0]);
            var hosts := if shared then HostsFor(DomainOf(rcpts[0]).value, names(DomainOf(rcpts[0]).value)) else None;
            match hosts
            case None => reports == [Result(false, FAILED, "", "", "", true)] && tried == []
            case Some(hosts) =>
              && tried != [] && tried == hosts[..Attempts(hosts, deliver, 0)]
              && reports == [Verdict(tried[|tried| - 1], deliver(|tried| - 1, tried[|tried| - 1]))]
  {
    tried := [];
    var domain := SingleDomain(rcpts);
    if domain.None? { return [REJECTED], []; }
    var hosts := ResolveMx(domain.value, names(domain.value));
    if hosts.None? { return [REJECTED], []; }
    reports, tried := TryHosts(hosts.value, deliver);
  }

  /** Tries the hosts in turn until one accepts. */
  method TryHosts(hosts: seq<string>, deliver: (nat, string) -> Delivery)
    returns (reports: seq<Result>, tried: seq<string>)
    requires hosts != []
    ensures tried != [] && tried == hosts[..Attempts(hosts, deliver, 0)]
    ensures reports == [Verdict(tried[|tried| - 1], deliver(|tried| - 1, tried[|tried| - 1]))]
  {
    tried := [];
    var res := REJECTED;
    for i := 0 to |hosts|
      invariant tried == hosts[..i] && Attempts(hosts, deliver, 0) == Attempts(hosts, deliver, i)
      invariant i > 0 ==> var d := deliver(i - 1, hosts[i - 1]);
                          d != Accepted && res == Result(false, FAILED, CodeOf(d), MessageOf(d), hosts[i - 1], true)
      invariant i == 0 ==> res == REJECTED
    {
      var d := deliver(i, hosts[i]);
      tried := tried + [hosts[i]];
      res := res.(mxHost := hosts[i], code := CodeOf(d), message := MessageOf(d));
      if d == Accepted {
        return [res.(accepted := true, status := SENT, hasError := false)], tried;
      }
    }
    return [res.(status := if IsPermanent(res.code) then FAILED else DEFERRED)], tried;
  }

  /** A message is SENT exactly if some host in the list would accept it in its turn; otherwise every host was
      tried, and FAILED or DEFERRED depends on nothing but the last one's answer. */
  lemma VerdictIsFirstSuccess(hosts: seq<string>, deliver: (nat, string) -> Delivery)
    requires hosts != []
    ensures var n := Attempts(hosts, deliver, 0);
            n > 0 &&
            var status, last := Verdict(hosts[n - 1], deliver(n - 1, hosts[n - 1])).status, |hosts| - 1;
            && (status == SENT <==> exists i: nat :: i < |hosts| && deliver(i, hosts[i]) == Accepted)
            && (status != SENT ==> n == |hosts| && (status == FAILED <==> Rejects(deliver(last, hosts[last]))))
  {
    var n := Attempts(hosts, deliver, 0);
    var last := deliver(n - 1, hosts[n - 1]);
    if last != Accepted {
      assert n == |hosts|;
      forall i: nat | i < |hosts| ensures deliver(i, hosts[i]) != Accepted {
        assert i == n - 1 || i < n - 1;
      }
    }
  }

  /** A host's answer is a permanent rejection. */
  predicate Rejects(d: Delivery) { d.Refused? && |d.text| >= 3 && d.text[0] == '5' }

  /** A permanent rejection by an earlier host is forgotten when a later one is merely unreachable. */
  lemma EarlierRejectionIsForgotten(first: string, second: string)
    ensures var deliver := (i: nat, h: string) => if i == 0 then Refused("550 no such user") else NoSession("timeout");
            var n := Attempts([first, second], deliver, 0);
            n == 2 && Verdict([first, second][n - 1], deliver(n - 1, [first, second][n - 1])).status == DEFERRED
  {
  }
}
