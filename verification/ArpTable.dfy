/** What the ARP table of the router holds, and what every event makes it send: both follow from
    the events received, with no look at the router's state. */
module ArpTable {
  import opened CTypes
  import opened InternetSum
  import opened Header
  import opened Wrappers
  import opened Words
  import Trie
  import TrieLookup
  import opened ArpRouter
  import opened ArpRuns

  /** The MAC of the last reply from a; zeros if a was only waited for; else nothing. */
  ghost function Learned(c: Config, es: seq<Event>, a: Ip): (mac: Option<Mac>)
    requires ValidConfig(c)
  {
    if |es| == 0 then None
    else
      var prior, e := Learned(c, es[..|es| - 1], a), es[|es| - 1];
      match e
      case ArpReply(spa, sha) => if spa == a then Some(sha) else prior
      case Ipv4(m) => if prior.None? && Passes(c, m) && Daddr(m.ip) == a then Some(Zeros(6)) else prior
      case _ => prior
  }

  function Holds(arp: map<Ip, Mac>, a: Ip): (mac: Option<Mac>) {
    if a in arp then Some(arp[a]) else None
  }

  /** After one event; queued destinations being keys, emptying the queue adds none. */
  lemma StepTable(c: Config, s: State, e: Event, a: Ip)
    requires ValidConfig(c) && QueueGood(c, s)
    ensures Holds(Step(c, s, e).arp, a) ==
      match e
      case ArpReply(spa, sha) => if spa == a then Some(sha) else Holds(s.arp, a)
      case Ipv4(m) =>
        if a !in s.arp && Passes(c, m) && Daddr(m.ip) == a then Some(Zeros(6)) else Holds(s.arp, a)
      case _ => Holds(s.arp, a)
  {
    hide Passes, Route, Daddr, Blanked, Rewritten, Drain, Judge;
    match e
    case ArpReply(spa, sha) => DrainForwardsAll(c, s.arp[spa := sha], s.q);
    case Ipv4(m) => JudgeMeaning(c, m);
    case _ =>
  }

  /** In every run the table holds exactly what the events taught. */
  lemma {:induction false} TableIsLearned(c: Config, es: seq<Event>, a: Ip)
    requires ValidConfig(c)
    ensures Holds(After(c, INIT, es).arp, a) == Learned(c, es, a)
  {
    if |es| > 0 {
      hide Step, Passes, Daddr, QueueGood, OnceEach, ForwardsGood, AcceptedPass, RequestsDistinct;
      TableIsLearned(c, es[..|es| - 1], a);
      RunKeepsInv(c, es[..|es| - 1]);
      StepTable(c, After(c, INIT, es[..|es| - 1]), es[|es| - 1], a);
    }
  }

  // ---- What is sent for each event -------------------------------------------------------------------

  /** The packets waiting, as received: those that passed while nothing was known of their
      destination, since the last reply. */
  ghost function Held(c: Config, es: seq<Event>): (ms: seq<Packet>)
    requires ValidConfig(c)
  {
    if |es| == 0 then []
    else
      var prior, e := Held(c, es[..|es| - 1]), es[|es| - 1];
      match e
      case ArpReply(_, _) => []
      case Ipv4(m) =>
        if Passes(c, m) && Learned(c, es[..|es| - 1], Daddr(m.ip)).None? then prior + [m] else prior
      case _ => prior
  }

  /** One sent packet: the received one but for TTL, checksum and destination MAC, on the
      interface of the route. */
  ghost predicate Relayed(c: Config, a: Action, m: Packet, mac: Option<Mac>)
    requires ValidConfig(c)
  {
    && a.Forward? && mac == Some(a.p.dhost)
    && a.iface == Route(c, Daddr(m.ip)).iface && a.p == Rewritten(m, a.p.dhost)
  }

  /** Everything the last event makes the router send.  TTL, protocol and destination address are
      bytes 8, 9 and 16 to 19 of the header; ICMP types as in RFC 792. */
  ghost predicate Answered(c: Config, es: seq<Event>, out: seq<Action>)
    requires ValidConfig(c) && |es| > 0
  {
    var prior := es[..|es| - 1];
    match es[|es| - 1]
    case Other => out == []
    case ArpRequest(iface, tpa) =>
      if c.ifaceIp(iface) == tpa then out == [SendArpReply(iface, c.ifaceMac(iface))]
      else if Learned(c, prior, tpa).Some? then out == [SendArpReply(iface, Learned(c, prior, tpa).value)]
      else out == []
    case ArpReply(_, _) =>
      && |out| == |Held(c, prior)|
      && forall i :: 0 <= i < |out| ==>
           Relayed(c, out[i], Held(c, prior)[i], Learned(c, es, Daddr(Held(c, prior)[i].ip)))
    case Ipv4(m) =>
      var d := Daddr(m.ip);
      if !AcceptedByRecomputing(m.ip) || m.ip[8] == 0 then out == []
      else if m.ip[8] == 1 then out == [SendIcmpError(m.iface, 11)]
      else if Route(c, d).prefix == ZERO then out == [SendIcmpError(m.iface, 3)]
      else if m.ip[9] == 1 && m.icmpType == 8 && c.ifaceIp(m.iface) == m.ip[16..20] then
        out == [SendEchoReply(m.iface)]
      else if Learned(c, prior, d).None? then out == [SendArpRequest(Route(c, d).iface, d)]
      else |out| == 1 && Relayed(c, out[0], m, Learned(c, prior, d))
  }

  ghost predicate QueueIs(q: seq<Waiting>, ms: seq<Packet>) {
    |q| == |ms| && forall i :: 0 <= i < |q| ==> q[i].p == Blanked(ms[i])
  }

  lemma StepQueue(c: Config, s: State, e: Event, ms: seq<Packet>)
    requires ValidConfig(c) && QueueIs(s.q, ms)
    ensures QueueIs(Step(c, s, e).q,
      match e
      case ArpReply(_, _) => []
      case Ipv4(m) => if Passes(c, m) && Daddr(m.ip) !in s.arp then ms + [m] else ms
      case _ => ms)
  {
    hide Passes, Route, Daddr, Blanked, Rewritten, Drain, Judge;
    if e.Ipv4? { JudgeMeaning(c, e.m); }
  }

  lemma {:induction false} QueueIsHeld(c: Config, es: seq<Event>)
    requires ValidConfig(c)
    ensures QueueIs(After(c, INIT, es).q, Held(c, es))
  {
    if |es| > 0 {
      hide Step, Passes, Daddr, QueueIs, Learned;
      var prior, e := es[..|es| - 1], es[|es| - 1];
      QueueIsHeld(c, prior);
      StepQueue(c, After(c, INIT, prior), e, Held(c, prior));
      if e.Ipv4? { TableIsLearned(c, prior, Daddr(e.m.ip)); }
    } else {
      assert QueueIs([], []);
    }
  }

  /** Emptying the queue relays it in order, each packet to what the table holds. */
  lemma {:induction false} DrainRelays(c: Config, arp: map<Ip, Mac>, q: seq<Waiting>, ms: seq<Packet>)
    requires ValidConfig(c) && QueueIs(q, ms) && forall i :: 0 <= i < |q| ==> Daddr(q[i].p.ip) in arp
    ensures var out := Drain(c, arp, q).1;
      |out| == |ms| && forall i :: 0 <= i < |out| ==> Relayed(c, out[i], ms[i], Holds(arp, Daddr(ms[i].ip)))
    decreases |q|
  {
    hide Route, Rewritten;
    if |q| > 0 {
      DrainRelays(c, arp, q[1..], ms[1..]);
      RelayBlank(c, q[0], ms[0], arp);
    }
  }

  lemma RelayBlank(c: Config, w: Waiting, m: Packet, arp: map<Ip, Mac>)
    requires ValidConfig(c) && w.p == Blanked(m) && Daddr(w.p.ip) in arp
    ensures var d := Daddr(w.p.ip);
      d == Daddr(m.ip) && Relayed(c, Forward(w.tag, Route(c, d).iface, Rewritten(w.p, arp[d])), m, Holds(arp, d))
  {
    ForwardedBlank(m.ip);
    hide Route, Forwarded, Store16, Daddr;
  }

  /** In every run, each event makes the router send exactly what the earlier events and the
      event itself say: answers carry its own MAC or the one learned, errors and echoes go back
      where the packet came from, and relayed packets carry what was learned when they leave. */
  lemma EveryEventIsAnswered(c: Config, es: seq<Event>)
    requires ValidConfig(c) && |es| > 0
    ensures var before, after := After(c, INIT, es[..|es| - 1]), After(c, INIT, es);
      && |before.sent| <= |after.sent| && after.sent[..|before.sent|] == before.sent
      && Answered(c, es, after.sent[|before.sent|..])
  {
    var prior, e := es[..|es| - 1], es[|es| - 1];
    var before := After(c, INIT, prior);
    hide Passes, Route, Daddr, Blanked, Rewritten, Drain, Judge, Learned, Held, Checksum;
    match e
    case Other =>
    case ArpRequest(_, tpa) => TableIsLearned(c, prior, tpa);
    case ArpReply(_, _) => ReplyAnswered(c, es);
    case Ipv4(m) =>
      JudgeMeaning(c, m);
      TableIsLearned(c, prior, Daddr(m.ip));
  }

  lemma ReplyAnswered(c: Config, es: seq<Event>)
    requires ValidConfig(c) && |es| > 0 && es[|es| - 1].ArpReply?
    ensures var before, after := After(c, INIT, es[..|es| - 1]), After(c, INIT, es);
      && |before.sent| <= |after.sent| && after.sent[..|before.sent|] == before.sent
      && Answered(c, es, after.sent[|before.sent|..])
  {
    var prior, e := es[..|es| - 1], es[|es| - 1];
    var before := After(c, INIT, prior);
    var arp, ms := before.arp[e.spa := e.sha], Held(c, prior);
    RunKeepsInv(c, prior);
    QueueIsHeld(c, prior);
    hide Passes, Route, Daddr, Blanked, Rewritten, Drain, Learned, Held, OnceEach, ForwardsGood, AcceptedPass;
    DrainRelays(c, arp, before.q, ms);
    DrainForwardsAll(c, arp, before.q);
    hide QueueGood, QueueIs, RequestsDistinct, Relayed;
    forall i | 0 <= i < |ms| ensures Holds(arp, Daddr(ms[i].ip)) == Learned(c, es, Daddr(ms[i].ip)) {
      TableIsLearned(c, es, Daddr(ms[i].ip));
    }
  }

  // ---- Where forwarded packets go --------------------------------------------------------------------

  lemma {:induction false} BitsValue(b: Byte, n: nat)
    requires b < Power2(n)
    ensures Value(seq(n, k requires 0 <= k < n => BitOf(b, k))) == b
  {
    if n > 0 {
      var bits := seq(n, k requires 0 <= k < n => BitOf(b, k));
      BitsValue(b / 2, n - 1);
      assert bits[1..] == seq(n - 1, k requires 0 <= k < n - 1 => BitOf(b / 2, k));
    }
  }

  lemma {:induction false} ValueAppend(x: seq<bool>, y: seq<bool>)
    ensures Value(x + y) == Value(x) + Power2(|x|) * Value(y)
  {
    if |x| == 0 {
      assert x + y == y;
    } else {
      ValueAppend(x[1..], y);
      assert (x + y)[1..] == x[1..] + y;
      assert 2 * (Power2(|x[1..]|) * Value(y)) == Power2(|x|) * Value(y);
    }
  }

  /** The word the trie is asked for: the first octet of the address in the lowest bits. */
  lemma AddressValue(a: Ip)
    ensures Value(AddressWord(a))
         == a[0] as int + a[1] as int * 0x100 + a[2] as int * 0x1_0000 + a[3] as int * 0x100_0000
  {
    hide Value, BitOf;
    assert Power2(8) == 0x100;
    BitsValue(a[0], 8);
    BitsValue(a[1], 8);
    BitsValue(a[2], 8);
    BitsValue(a[3], 8);
    var b0, b1 := Octet(a[0]), Octet(a[1]);
    var b2, b3 := Octet(a[2]), Octet(a[3]);
    assert AddressWord(a) == b0 + (b1 + (b2 + b3));
    ValueAppend(b2, b3);
    ValueAppend(b1, b2 + b3);
    ValueAppend(b0, b1 + (b2 + b3));
  }

  function Octet(b: Byte): (bits: seq<bool>) {
    seq(8, k requires 0 <= k < 8 => BitOf(b, k))
  }

  /** In every run a packet leaves by the longest match for its destination whenever the walk in
      the trie ends there, and in a table without nested prefixes by the entry that matches. */
  lemma LeavesByLongestMatch(c: Config, es: seq<Event>, k: nat)
    requires ValidConfig(c)
    requires var s := After(c, INIT, es); k < |s.sent| && s.sent[k].Forward?
    ensures var a, ms := After(c, INIT, es).sent[k], Passing(c, es);
      && a.tag < |ms|
      && var w := AddressWord(Daddr(ms[a.tag].ip));
         var b := TrieLookup.Best(c.table, w);
         && w != ZERO
         && (b != Trie.EMPTY && TrieLookup.WalkEnd(c.table, w[..1], w) == TrieLookup.Own(b) ==> a.iface == b.iface)
         && (TrieLookup.NoneNested(c.table) ==>
               forall i :: 0 <= i < |c.table| && TrieLookup.Matches(c.table[i], w) ==> a.iface == c.table[i].iface)
  {
    RunKeepsInv(c, es);
    var s := After(c, INIT, es);
    var a := s.sent[k];
    assert GoodForward(c, s.accepted, a);
    var m := s.accepted[a.tag];
    assert Passes(c, m);
    var w := AddressWord(Daddr(m.ip));
    hide After, Passing, AddressWord, OnceEach, QueueGood, ForwardsGood, AcceptedPass, RequestsDistinct, Rewritten,
         TrieLookup.Built, TrieLookup.NoneNested, Checksum;
    TrieLookup.LookupIsRightIff(c.table, w);
    if TrieLookup.NoneNested(c.table) {
      forall i | 0 <= i < |c.table| && TrieLookup.Matches(c.table[i], w) ensures a.iface == c.table[i].iface {
        TrieLookup.UniqueMatchIsFound(c.table, w, i);
      }
    }
  }
}
