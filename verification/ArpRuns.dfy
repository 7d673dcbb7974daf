/** What holds in every run of the ARP router. */
module ArpRuns {
  import opened CTypes
  import opened InternetSum
  import opened Header
  import opened Words
  import opened ArpRouter

  function After(c: Config, s: State, es: seq<Event>): (s': State)
    requires ValidConfig(c)
  {
    if |es| == 0 then s else Step(c, After(c, s, es[..|es| - 1]), es[|es| - 1])
  }

  /** The packets that pass the checks and are not an echo for the router, in order of arrival. */
  predicate Passes(c: Config, m: Packet)
    requires ValidConfig(c)
  {
    && AcceptedByRecomputing(m.ip) && m.ip[TTL] >= 2 && Route(c, Daddr(m.ip)).prefix != ZERO
    && !(m.ip[PROTOCOL] == ICMP && m.icmpType == ECHO_REQUEST && c.ifaceIp(m.iface) == Daddr(m.ip))
  }

  function Passing(c: Config, es: seq<Event>): (ms: seq<Packet>)
    requires ValidConfig(c)
  {
    if |es| == 0 then []
    else
      var prior, e := Passing(c, es[..|es| - 1]), es[|es| - 1];
      if e.Ipv4? && Passes(c, e.m) then prior + [e.m] else prior
  }

  // ---- Reading the log ----------------------------------------------------------------------------

  function ForwardTags(sent: seq<Action>): (tags: seq<nat>) {
    if |sent| == 0 then []
    else (if sent[0].Forward? then [sent[0].tag] else []) + ForwardTags(sent[1..])
  }

  function RequestTargets(sent: seq<Action>): (targets: seq<Ip>) {
    if |sent| == 0 then []
    else (if sent[0].SendArpRequest? then [sent[0].target] else []) + RequestTargets(sent[1..])
  }

  function QueueTags(q: seq<Waiting>): (tags: seq<nat>)
    ensures |tags| == |q| && forall i :: 0 <= i < |q| ==> tags[i] == q[i].tag
  {
    seq(|q|, i requires 0 <= i < |q| => q[i].tag)
  }

  lemma {:induction false} TagsAppend(a: seq<Action>, b: seq<Action>)
    ensures ForwardTags(a + b) == ForwardTags(a) + ForwardTags(b)
  {
    if |a| == 0 {
      assert a + b == b;
    } else {
      TagsAppend(a[1..], b);
      assert (a + b)[0] == a[0] && (a + b)[1..] == a[1..] + b;
      var head := if a[0].Forward? then [a[0].tag] else [];
      assert head + (ForwardTags(a[1..]) + ForwardTags(b)) == (head + ForwardTags(a[1..])) + ForwardTags(b);
    }
  }

  lemma {:induction false} TargetsAppend(a: seq<Action>, b: seq<Action>)
    ensures RequestTargets(a + b) == RequestTargets(a) + RequestTargets(b)
  {
    if |a| == 0 {
      assert a + b == b;
    } else {
      TargetsAppend(a[1..], b);
      assert (a + b)[0] == a[0] && (a + b)[1..] == a[1..] + b;
      var head := if a[0].SendArpRequest? then [a[0].target] else [];
      assert head + (RequestTargets(a[1..]) + RequestTargets(b)) == (head + RequestTargets(a[1..])) + RequestTargets(b);
    }
  }

  // ---- Invariants -----------------------------------------------------------------------------------

  /** Each accepted packet is forwarded once or waiting once. */
  ghost predicate OnceEach(s: State) {
    multiset(ForwardTags(s.sent)) + multiset(QueueTags(s.q)) == multiset(seq(|s.accepted|, i => i))
  }

  ghost predicate GoodForward(c: Config, accepted: seq<Packet>, a: Action)
    requires ValidConfig(c)
  {
    a.Forward? ==>
      && a.tag < |accepted|
      && a.iface == Route(c, Daddr(accepted[a.tag].ip)).iface
      && a.p == Rewritten(accepted[a.tag], a.p.dhost)
  }

  ghost predicate ForwardsGood(c: Config, s: State)
    requires ValidConfig(c)
  {
    forall i :: 0 <= i < |s.sent| ==> GoodForward(c, s.accepted, s.sent[i])
  }

  ghost predicate AcceptedPass(c: Config, s: State)
    requires ValidConfig(c)
  {
    forall i :: 0 <= i < |s.accepted| ==> Passes(c, s.accepted[i])
  }

  /** A waiting packet is its accepted packet with the checksum blanked; the request for its
      destination went out on the interface it will leave on. */
  ghost predicate QueueGood(c: Config, s: State)
    requires ValidConfig(c)
  {
    && (forall i :: 0 <= i < |s.q| ==>
          s.q[i].tag < |s.accepted| && s.q[i].p == Blanked(s.accepted[s.q[i].tag]))
    && (forall i :: 0 <= i < |s.q| ==>
          var d := Daddr(s.q[i].p.ip); d in s.arp && SendArpRequest(Route(c, d).iface, d) in s.sent)
    && (forall i, j :: 0 <= i < j < |s.q| ==> Daddr(s.q[i].p.ip) != Daddr(s.q[j].p.ip))
  }

  /** No address is asked for twice, and every address asked for stays in the table. */
  ghost predicate RequestsDistinct(s: State) {
    var ts := RequestTargets(s.sent);
    && (forall i :: 0 <= i < |ts| ==> ts[i] in s.arp)
    && (forall i, j :: 0 <= i < j < |ts| ==> ts[i] != ts[j])
  }

  ghost predicate Inv(c: Config, s: State)
    requires ValidConfig(c)
  {
    OnceEach(s) && ForwardsGood(c, s) && AcceptedPass(c, s) && QueueGood(c, s) && RequestsDistinct(s)
  }

  // ---- Emptying the queue ---------------------------------------------------------------------------

  lemma {:induction false} DrainForwardsAll(c: Config, arp: map<Ip, Mac>, q: seq<Waiting>)
    requires ValidConfig(c) && forall i :: 0 <= i < |q| ==> Daddr(q[i].p.ip) in arp
    ensures Drain(c, arp, q).0 == arp
    ensures ForwardTags(Drain(c, arp, q).1) == QueueTags(q) && RequestTargets(Drain(c, arp, q).1) == []
    decreases |q|
  {
    hide Route, Rewritten, Daddr;
    if |q| > 0 {
      DrainForwardsAll(c, arp, q[1..]);
      assert QueueTags(q) == [q[0].tag] + QueueTags(q[1..]);
    }
  }

  lemma {:induction false} DrainForwardsGood(c: Config, arp: map<Ip, Mac>, q: seq<Waiting>, accepted: seq<Packet>)
    requires ValidConfig(c) && forall i :: 0 <= i < |q| ==>
      q[i].tag < |accepted| && q[i].p == Blanked(accepted[q[i].tag])
    ensures forall k :: 0 <= k < |Drain(c, arp, q).1| ==> GoodForward(c, accepted, Drain(c, arp, q).1[k])
    decreases |q|
  {
    hide Route;
    if |q| > 0 {
      var d := Daddr(q[0].p.ip);
      DrainForwardsGood(c, if d in arp then arp else arp[d := Zeros(6)], q[1..], accepted);
      ForwardedBlank(accepted[q[0].tag].ip);
      hide Forwarded, Daddr, Store16;
    }
  }

  // ---- One event --------------------------------------------------------------------------------------

  /** The order of the tests: checksum, TTL (RFC 1812 section 5.3.1), route, echo. */
  lemma JudgeMeaning(c: Config, m: Packet)
    requires ValidConfig(c)
    ensures Judge(c, m) == Accept <==> Passes(c, m)
    ensures Judge(c, m) == Drop <==> !AcceptedByRecomputing(m.ip) || m.ip[TTL] == 0
    ensures Judge(c, m) == Error(TIME_EXCEEDED) <==> AcceptedByRecomputing(m.ip) && m.ip[TTL] == 1
    ensures Judge(c, m) == Error(DEST_UNREACH) <==>
      AcceptedByRecomputing(m.ip) && m.ip[TTL] >= 2 && Route(c, Daddr(m.ip)).prefix == ZERO
  {
    hide Checksum, Route, Store16, Load16;
  }

  /** A step adds nothing to the table and the queue but what these cases say. */
  lemma QuietStep(c: Config, s: State, e: Event, a: Action)
    requires ValidConfig(c) && Inv(c, s) && !a.Forward? && !a.SendArpRequest?
    ensures Inv(c, s.(sent := s.sent + [a]))
  {
    hide Passes, Route, Daddr, Blanked, Rewritten;
    TagsAppend(s.sent, [a]);
    TargetsAppend(s.sent, [a]);
    assert ForwardTags([a]) == [] && RequestTargets([a]) == [];
    assert ForwardTags(s.sent + [a]) == ForwardTags(s.sent);
    assert RequestTargets(s.sent + [a]) == RequestTargets(s.sent);
  }

  lemma ForwardsGoodAppend(c: Config, s: State, s': State, acts: seq<Action>)
    requires ValidConfig(c) && ForwardsGood(c, s)
    requires s'.sent == s.sent + acts && s.accepted <= s'.accepted
    requires forall k :: 0 <= k < |acts| ==> GoodForward(c, s'.accepted, acts[k])
    ensures ForwardsGood(c, s')
  {
    hide Route, Daddr, Rewritten;
    forall i | 0 <= i < |s'.sent| ensures GoodForward(c, s'.accepted, s'.sent[i]) {
      if i < |s.sent| { assert GoodForward(c, s.accepted, s.sent[i]); }
    }
  }

  lemma AcceptedPassAppend(c: Config, s: State, s': State, m: Packet)
    requires ValidConfig(c) && AcceptedPass(c, s) && Passes(c, m) && s'.accepted == s.accepted + [m]
    ensures AcceptedPass(c, s')
  {
    hide Passes;
  }

  lemma ReplyStep(c: Config, s: State, spa: Ip, sha: Mac)
    requires ValidConfig(c) && Inv(c, s)
    ensures Inv(c, Step(c, s, ArpReply(spa, sha))) && Step(c, s, ArpReply(spa, sha)).q == []
  {
    hide Passes, Route, Daddr, Blanked, Rewritten, Drain, ForwardsGood, OnceEach;
    var arp, s' := s.arp[spa := sha], Step(c, s, ArpReply(spa, sha));
    DrainForwardsAll(c, arp, s.q);
    DrainForwardsGood(c, arp, s.q, s.accepted);
    var acts := Drain(c, arp, s.q).1;
    ForwardsGoodAppend(c, s, s', acts);
    TagsAppend(s.sent, acts);
    TargetsAppend(s.sent, acts);
    hide ForwardTags, RequestTargets, AcceptedPass;
    assert QueueTags(s'.q) == [];
    assert RequestTargets(s'.sent) == RequestTargets(s.sent);
    RequestsKept(s, s');
    hide RequestsDistinct;
    Drained(s, s');
  }

  lemma Drained(s: State, s': State)
    requires OnceEach(s) && s'.accepted == s.accepted && s'.q == []
    requires ForwardTags(s'.sent) == ForwardTags(s.sent) + QueueTags(s.q)
    ensures OnceEach(s')
  {
    hide ForwardTags;
  }

  lemma RequestsKept(s: State, s': State)
    requires RequestsDistinct(s) && RequestTargets(s'.sent) == RequestTargets(s.sent)
    requires s.arp.Keys <= s'.arp.Keys
    ensures RequestsDistinct(s')
  {
    hide RequestTargets;
  }

  lemma TagsOfOneMore(n: nat)
    ensures seq(n + 1, i => i) == seq(n, i => i) + [n]
  {
  }

  /** One accepted packet more, forwarded or waiting. */
  lemma OneMoreTag(s: State, s': State)
    requires OnceEach(s) && |s'.accepted| == |s.accepted| + 1
    requires || (ForwardTags(s'.sent) == ForwardTags(s.sent) + [|s.accepted|] && s'.q == s.q)
             || (ForwardTags(s'.sent) == ForwardTags(s.sent) && QueueTags(s'.q) == QueueTags(s.q) + [|s.accepted|])
    ensures OnceEach(s')
  {
    hide ForwardTags;
    TagsOfOneMore(|s.accepted|);
  }

  /** The destination is known: forwarded at once. */
  lemma ForwardStep(c: Config, s: State, m: Packet)
    requires ValidConfig(c) && Inv(c, s) && Passes(c, m) && Daddr(m.ip) in s.arp
    ensures var d := Daddr(m.ip);
      Inv(c, s.(accepted := s.accepted + [m],
                sent := s.sent + [Forward(|s.accepted|, Route(c, d).iface, Rewritten(m, s.arp[d]))]))
  {
    var d := Daddr(m.ip);
    var a := Forward(|s.accepted|, Route(c, d).iface, Rewritten(m, s.arp[d]));
    var s' := s.(accepted := s.accepted + [m], sent := s.sent + [a]);
    assert GoodForward(c, s'.accepted, a);
    hide Passes, Route, Daddr, Blanked, Rewritten, GoodForward;
    hide OnceEach, ForwardsGood, AcceptedPass, QueueGood, RequestsDistinct;
    ForwardsGoodAppend(c, s, s', [a]);
    AcceptedPassAppend(c, s, s', m);
    TagsAppend(s.sent, [a]);
    TargetsAppend(s.sent, [a]);
    assert ForwardTags([a]) == [a.tag] && RequestTargets([a]) == [];
    assert RequestTargets(s'.sent) == RequestTargets(s.sent);
    OneMoreTag(s, s');
    RequestsKept(s, s');
    QueueGoodKept(c, s, s');
  }

  lemma QueueGoodKept(c: Config, s: State, s': State)
    requires ValidConfig(c) && QueueGood(c, s) && s'.q == s.q && s'.arp == s.arp
    requires s.accepted <= s'.accepted && s.sent <= s'.sent
    ensures QueueGood(c, s')
  {
    hide Route, Daddr, Blanked;
  }

  lemma QueueGoodPush(c: Config, s: State, s': State, w: Waiting, mac: Mac)
    requires ValidConfig(c) && QueueGood(c, s) && s'.q == s.q + [w]
    requires s.accepted <= s'.accepted && s.sent <= s'.sent
    requires var d := Daddr(w.p.ip);
      d !in s.arp && s'.arp == s.arp[d := mac] && SendArpRequest(Route(c, d).iface, d) in s'.sent
    requires w.tag < |s'.accepted| && w.p == Blanked(s'.accepted[w.tag])
    ensures QueueGood(c, s')
  {
    hide Route, Daddr, Blanked;
  }

  /** The destination is unknown: one request, and the packet waits. */
  lemma WaitStep(c: Config, s: State, m: Packet)
    requires ValidConfig(c) && Inv(c, s) && Passes(c, m) && Daddr(m.ip) !in s.arp
    ensures var d := Daddr(m.ip);
      Inv(c, s.(accepted := s.accepted + [m], arp := s.arp[d := Zeros(6)],
                q := s.q + [Waiting(|s.accepted|, Blanked(m))],
                sent := s.sent + [SendArpRequest(Route(c, d).iface, d)]))
  {
    var d, w := Daddr(m.ip), Waiting(|s.accepted|, Blanked(m));
    ForwardedBlank(m.ip);
    assert Daddr(w.p.ip) == d;
    var a := SendArpRequest(Route(c, d).iface, d);
    hide Passes, Route, Daddr, Blanked, Rewritten;
    hide OnceEach, ForwardsGood, AcceptedPass, QueueGood, RequestsDistinct;
    var s' := s.(accepted := s.accepted + [m], arp := s.arp[d := Zeros(6)], q := s.q + [w], sent := s.sent + [a]);
    ForwardsGoodAppend(c, s, s', [a]);
    AcceptedPassAppend(c, s, s', m);
    OneMoreRequest(s.sent, a);
    OneMoreTag(s, s');
    RequestsPush(s, s', d);
    QueueGoodPush(c, s, s', w, Zeros(6));
  }

  lemma OneMoreRequest(sent: seq<Action>, a: Action)
    requires a.SendArpRequest?
    ensures ForwardTags(sent + [a]) == ForwardTags(sent)
    ensures RequestTargets(sent + [a]) == RequestTargets(sent) + [a.target]
  {
    TagsAppend(sent, [a]);
    TargetsAppend(sent, [a]);
    assert ForwardTags([a]) == [] && RequestTargets([a]) == [a.target];
  }

  lemma RequestsPush(s: State, s': State, d: Ip)
    requires RequestsDistinct(s) && RequestTargets(s'.sent) == RequestTargets(s.sent) + [d]
    requires d !in s.arp && s'.arp.Keys == s.arp.Keys + {d}
    ensures RequestsDistinct(s')
  {
    hide RequestTargets;
  }

  lemma StepKeepsInv(c: Config, s: State, e: Event)
    requires ValidConfig(c) && Inv(c, s)
    ensures Inv(c, Step(c, s, e))
    ensures Step(c, s, e).accepted == if e.Ipv4? && Passes(c, e.m) then s.accepted + [e.m] else s.accepted
  {
    hide Inv, Passes, Route, Daddr, Blanked, Rewritten, Drain, Judge;
    match e
    case Other =>
    case ArpRequest(iface, tpa) =>
      if c.ifaceIp(iface) == tpa {
        QuietStep(c, s, e, SendArpReply(iface, c.ifaceMac(iface)));
      } else if tpa in s.arp {
        QuietStep(c, s, e, SendArpReply(iface, s.arp[tpa]));
      }
    case ArpReply(spa, sha) => ReplyStep(c, s, spa, sha);
    case Ipv4(m) =>
      JudgeMeaning(c, m);
      match Judge(c, m)
      case Drop =>
      case Error(icmp) => QuietStep(c, s, e, SendIcmpError(m.iface, icmp));
      case Echo => QuietStep(c, s, e, SendEchoReply(m.iface));
      case Accept =>
        if Daddr(m.ip) in s.arp { ForwardStep(c, s, m); } else { WaitStep(c, s, m); }
  }

  lemma {:induction false} RunKeepsInv(c: Config, es: seq<Event>)
    requires ValidConfig(c)
    ensures Inv(c, After(c, INIT, es)) && After(c, INIT, es).accepted == Passing(c, es)
  {
    if |es| > 0 {
      RunKeepsInv(c, es[..|es| - 1]);
      StepKeepsInv(c, After(c, INIT, es[..|es| - 1]), es[|es| - 1]);
    }
  }

  // ---- All runs -----------------------------------------------------------------------------------------

  /** In every run each passing packet has been forwarded exactly once or is waiting exactly once. */
  lemma ForwardedOnceOrWaiting(c: Config, es: seq<Event>, t: nat)
    requires ValidConfig(c) && t < |Passing(c, es)|
    ensures var s := After(c, INIT, es);
      multiset(ForwardTags(s.sent))[t] + multiset(QueueTags(s.q))[t] == 1
  {
    hide Passing, After, Step, Passes, ForwardsGood, AcceptedPass, QueueGood, RequestsDistinct;
    RunKeepsInv(c, es);
    OnceInSeq(|Passing(c, es)|, t);
  }

  lemma {:induction false} OnceInSeq(n: nat, t: nat)
    ensures multiset(seq(n, i => i))[t] == if t < n then 1 else 0
  {
    if n > 0 {
      TagsOfOneMore(n - 1);
      OnceInSeq(n - 1, t);
    }
  }

  /** What is sent for a passing packet is that packet with TTL one less, a checksum that both
      acceptance tests accept and another destination MAC; it leaves where its route says. */
  lemma ForwardedForm(c: Config, es: seq<Event>, k: nat)
    requires ValidConfig(c)
    requires var s := After(c, INIT, es); k < |s.sent| && s.sent[k].Forward?
    ensures var a, ms := After(c, INIT, es).sent[k], Passing(c, es);
      && a.tag < |ms|
      && a.iface == Route(c, Daddr(ms[a.tag].ip)).iface
      && a.p == ms[a.tag].(ip := a.p.ip, dhost := a.p.dhost)
      && ms[a.tag].ip[TTL] >= 2 && a.p.ip[TTL] == OneLess(ms[a.tag].ip[TTL])
      && (forall i :: 0 <= i < SIZE && i != TTL && i != CHECK && i != CHECK + 1 ==>
            a.p.ip[i] == ms[a.tag].ip[i])
      && AcceptedByRecomputing(a.p.ip) && AcceptedByZeroSum(a.p.ip)
  {
    hide Passing, After, Step, Route, Forwarded, OnceEach, QueueGood, RequestsDistinct, Checksum;
    RunKeepsInv(c, es);
    var s := After(c, INIT, es);
    assert GoodForward(c, s.accepted, s.sent[k]);
    ForwardedHeader(s.accepted[s.sent[k].tag].ip);
  }

  /** The queue: distinct destinations, all in the ARP table and all with a route; TTL at least
      two, so the decrement cannot wrap; and each packet will leave on the interface that its own
      ARP request went out on. */
  lemma QueueInvariant(c: Config, es: seq<Event>)
    requires ValidConfig(c)
    ensures var s := After(c, INIT, es);
      && (forall i, j :: 0 <= i < j < |s.q| ==> Daddr(s.q[i].p.ip) != Daddr(s.q[j].p.ip))
      && (forall i :: 0 <= i < |s.q| ==> QueuedPacketGood(c, s, s.q[i].p))
  {
    hide Passing, After, Step, Route, OnceEach, ForwardsGood, RequestsDistinct, Checksum;
    RunKeepsInv(c, es);
    var s := After(c, INIT, es);
    forall i | 0 <= i < |s.q| ensures QueuedPacketGood(c, s, s.q[i].p) {
      ForwardedBlank(s.accepted[s.q[i].tag].ip);
    }
  }

  ghost predicate QueuedPacketGood(c: Config, s: State, p: Packet)
    requires ValidConfig(c)
  {
    var d := Daddr(p.ip);
    && d in s.arp && Route(c, d).prefix != ZERO && p.ip[TTL] >= 2
    && SendArpRequest(Route(c, d).iface, d) in s.sent
  }

  /** No address is the target of two ARP requests in a run. */
  lemma NeverAskedTwice(c: Config, es: seq<Event>)
    requires ValidConfig(c)
    ensures var ts := RequestTargets(After(c, INIT, es).sent);
      forall i, j :: 0 <= i < j < |ts| ==> ts[i] != ts[j]
  {
    hide Passing, After, Step, OnceEach, ForwardsGood, QueueGood, AcceptedPass;
    RunKeepsInv(c, es);
  }

  /** Every ARP reply empties the queue. */
  lemma ReplyEmptiesQueue(c: Config, es: seq<Event>)
    requires ValidConfig(c) && |es| > 0 && es[|es| - 1].ArpReply?
    ensures After(c, INIT, es).q == []
    ensures var before, after := After(c, INIT, es[..|es| - 1]), After(c, INIT, es);
      ForwardTags(after.sent) == ForwardTags(before.sent) + QueueTags(before.q)
  {
    var before, e := After(c, INIT, es[..|es| - 1]), es[|es| - 1];
    RunKeepsInv(c, es[..|es| - 1]);
    hide Passing, Route, Daddr, Rewritten, Blanked, Passes, OnceEach, ForwardsGood, RequestsDistinct, Drain;
    DrainForwardsAll(c, before.arp[e.spa := e.sha], before.q);
    TagsAppend(before.sent, Drain(c, before.arp[e.spa := e.sha], before.q).1);
  }
}
