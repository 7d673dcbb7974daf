/** The ARP router: a routing trie, an ARP table and a queue of packets waiting for a reply.
    An event is a received packet; the sockets are replaced by a log of what was sent. */
module ArpRouter {
  import opened CTypes
  import opened InternetSum
  import opened Header
  import Skel
  import opened Words
  import Trie
  import TrieLookup

  type Ip = a: seq<Byte> | |a| == 4 witness Zeros(4)
  type Mac = a: seq<Byte> | |a| == 6 witness Zeros(6)

  /** An Ethernet frame carrying IPv4.  icmpType is the byte after the IP header. */
  datatype Packet = Packet(iface: int, dhost: Mac, shost: Mac, ip: Bytes20, icmpType: Byte, rest: seq<Byte>)

  /** What does not change while the router runs. */
  datatype Config = Config(table: seq<Trie.Entry>, ifaceIp: int -> Ip, ifaceMac: int -> Mac)

  datatype Event =
    | ArpRequest(iface: int, tpa: Ip)
    | ArpReply(spa: Ip, sha: Mac)
    | Ipv4(m: Packet)
    | Other

  /** tag is the number of the accepted packet; it records history and is not in the frame. */
  datatype Action =
    | SendArpReply(iface: int, mac: Mac)
    | SendArpRequest(iface: int, target: Ip)
    | SendIcmpError(iface: int, icmp: int)
    | SendEchoReply(iface: int)
    | Forward(tag: nat, iface: int, p: Packet)

  datatype Waiting = Waiting(tag: nat, p: Packet)

  datatype State = State(arp: map<Ip, Mac>, q: seq<Waiting>, sent: seq<Action>, accepted: seq<Packet>)

  const INIT := State(map[], [], [], [])

  const TIME_EXCEEDED := 11
  const DEST_UNREACH := 3
  const ECHO_REQUEST := 8
  const ICMP: Byte := 1

  ghost predicate ValidConfig(c: Config) {
    TrieLookup.AllConstructed(c.table)
  }

  function Daddr(h: Bytes20): (a: Ip) {
    h[DADDR..DADDR + 4]
  }

  /** The four octets as a word in network byte order on a little-endian host. */
  function AddressWord(a: Ip): (w: Word) {
    seq(32, i requires 0 <= i < 32 => BitOf(a[i / 8], i % 8))
  }

  function BitOf(b: Byte, k: nat): (bit: bool) {
    if k == 0 then b % 2 == 1 else BitOf(b / 2, k - 1)
  }

  function Route(c: Config, a: Ip): (e: Trie.Entry)
    requires ValidConfig(c)
  {
    Trie.Lookup(TrieLookup.Built(c.table), AddressWord(a))
  }

  /** TTL minus one, a fresh checksum, a new destination MAC. */
  function Rewritten(p: Packet, mac: Mac): (p': Packet) {
    p.(ip := Forwarded(p.ip), dhost := mac)
  }

  function Blanked(p: Packet): (p': Packet) {
    p.(ip := Store16(p.ip, CHECK, 0))
  }

  // ---- One received packet ----------------------------------------------------------------------

  /** The tests of lines 284-314, in their order. */
  datatype Verdict = Drop | Error(icmp: int) | Echo | Accept

  function Judge(c: Config, m: Packet): (v: Verdict)
    requires ValidConfig(c)
  {
    if Checksum(Blanked(m).ip) != Load16(m.ip, CHECK) then Drop
    else if m.ip[TTL] < 1 then Drop
    else if m.ip[TTL] == 1 then Error(TIME_EXCEEDED)
    else if Route(c, Daddr(m.ip)).prefix == ZERO then Error(DEST_UNREACH)
    else if m.ip[PROTOCOL] == ICMP && m.icmpType == ECHO_REQUEST && c.ifaceIp(m.iface) == Daddr(m.ip) then Echo
    else Accept
  }

  /** Emptying the queue; reading an absent key of the table would create it. */
  function Drain(c: Config, arp: map<Ip, Mac>, q: seq<Waiting>): (r: (map<Ip, Mac>, seq<Action>))
    requires ValidConfig(c)
    decreases |q|
  {
    if |q| == 0 then (arp, [])
    else
      var d := Daddr(q[0].p.ip);
      var arp' := if d in arp then arp else arp[d := Zeros(6)];
      var rest := Drain(c, arp', q[1..]);
      (rest.0, [Forward(q[0].tag, Route(c, d).iface, Rewritten(q[0].p, arp'[d]))] + rest.1)
  }

  function Step(c: Config, s: State, e: Event): (s': State)
    requires ValidConfig(c)
  {
    match e
    case Other => s
    case ArpRequest(iface, tpa) =>
      if c.ifaceIp(iface) == tpa then s.(sent := s.sent + [SendArpReply(iface, c.ifaceMac(iface))])
      else if tpa in s.arp then s.(sent := s.sent + [SendArpReply(iface, s.arp[tpa])])
      else s
    case ArpReply(spa, sha) =>
      var d := Drain(c, s.arp[spa := sha], s.q);
      s.(arp := d.0, q := [], sent := s.sent + d.1)
    case Ipv4(m) =>
      match Judge(c, m)
      case Drop => s
      case Error(icmp) => s.(sent := s.sent + [SendIcmpError(m.iface, icmp)])
      case Echo => s.(sent := s.sent + [SendEchoReply(m.iface)])
      case Accept =>
        var d, tag, s1 := Daddr(m.ip), |s.accepted|, s.(accepted := s.accepted + [m]);
        if d in s.arp then
          s1.(sent := s.sent + [Forward(tag, Route(c, d).iface, Rewritten(m, s.arp[d]))])
        else
          s1.(arp := s.arp[d := Zeros(6)],
              q := s.q + [Waiting(tag, Blanked(m))],
              sent := s.sent + [SendArpRequest(Route(c, d).iface, d)])
  }

  // ---- The router as the source has it ------------------------------------------------------------

  /** accepted, and the tags in q and sent, are history; the program has no such field. */
  class Router {
    const c: Config
    var arpTable: map<Ip, Mac>
    var q: seq<Waiting>
    var sent: seq<Action>
    var accepted: seq<Packet>

    ghost function Now(): (s: State)
      reads this
    {
      State(arpTable, q, sent, accepted)
    }

    constructor (c: Config)
      ensures this.c == c && Now() == INIT
    {
      this.c := c;
      arpTable, q, sent, accepted := map[], [], [], [];
    }

    method OnArpRequest(iface: int, tpa: Ip)
      requires ValidConfig(c)
      modifies this
      ensures Now() == Step(c, old(Now()), ArpRequest(iface, tpa))
    {
      if c.ifaceIp(iface) == tpa {
        sent := sent + [SendArpReply(iface, c.ifaceMac(iface))];
      } else if tpa in arpTable {
        sent := sent + [SendArpReply(iface, arpTable[tpa])];
      }
    }

    method OnArpReply(spa: Ip, sha: Mac)
      requires ValidConfig(c)
      modifies this
      ensures Now() == Step(c, old(Now()), ArpReply(spa, sha))
    {
      hide Checksum, Route, Forwarded, Store16, Daddr;
      arpTable := arpTable[spa := sha];
      ghost var whole := Drain(c, arpTable, q);
      while |q| != 0
        invariant accepted == old(accepted)
        invariant Drain(c, arpTable, q).0 == whole.0
        invariant sent + Drain(c, arpTable, q).1 == old(sent) + whole.1
        decreases |q|
      {
        var currentPacket := q[0];
        q := q[1..];
        var d := Daddr(currentPacket.p.ip);
        var h := new Byte[SIZE](i requires 0 <= i < SIZE => currentPacket.p.ip[i]);
        assert h[..] == currentPacket.p.ip;
        RewriteInPlace(h, 2);
        if d !in arpTable {
          arpTable := arpTable[d := Zeros(6)];
        }
        var rewritten := currentPacket.p.(ip := h[..], dhost := arpTable[d]);
        ghost var action := Forward(currentPacket.tag, Route(c, d).iface, rewritten);
        assert forall rest: seq<Action> :: sent + ([action] + rest) == (sent + [action]) + rest;
        sent := sent + [Forward(currentPacket.tag, Route(c, d).iface, rewritten)];
      }
    }

    method OnIpv4(m: Packet)
      requires ValidConfig(c)
      modifies this
      ensures Now() == Step(c, old(Now()), Ipv4(m))
    {
      hide Checksum, Route, Forwarded, Load16, Daddr, Store16;
      var d := Daddr(m.ip);
      var bestMatch := Route(c, d);
      var oldChecksum := Load16(m.ip, CHECK);
      var blank := Store16(m.ip, CHECK, 0);
      var newChecksum := Skel.IpChecksum(blank, 2);
      if newChecksum != oldChecksum { return; }
      if m.ip[TTL] < 1 { return; }
      if m.ip[TTL] == 1 {
        sent := sent + [SendIcmpError(m.iface, TIME_EXCEEDED)];
        return;
      }
      if bestMatch.prefix == ZERO {
        sent := sent + [SendIcmpError(m.iface, DEST_UNREACH)];
        return;
      }
      if m.ip[PROTOCOL] == ICMP {
        if m.icmpType == ECHO_REQUEST && c.ifaceIp(m.iface) == d {
          sent := sent + [SendEchoReply(m.iface)];
          return;
        }
      }
      var tag := |accepted|;
      accepted := accepted + [m];
      if d !in arpTable {
        arpTable := arpTable[d := Zeros(6)];
        sent := sent + [SendArpRequest(bestMatch.iface, d)];
        q := q + [Waiting(tag, m.(ip := blank))];
      } else {
        var h := new Byte[SIZE](i requires 0 <= i < SIZE => blank[i]);
        assert h[..] == blank;
        RewriteInPlace(h, 2);
        ForwardedBlank(m.ip);
        sent := sent + [Forward(tag, bestMatch.iface, m.(ip := h[..], dhost := arpTable[d]))];
      }
    }
  }

  /** Blanking the checksum field first makes no difference to what is sent on. */
  lemma ForwardedBlank(h: Bytes20)
    ensures Forwarded(Store16(h, CHECK, 0)) == Forwarded(h)
    ensures Daddr(Store16(h, CHECK, 0)) == Daddr(h)
  {
    hide Checksum;
    var ttl := OneLess(h[TTL]);
    assert Store16(Store16(h, CHECK, 0)[TTL := ttl], CHECK, 0) == Store16(h[TTL := ttl], CHECK, 0);
  }
}
