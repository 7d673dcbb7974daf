/** What the server guarantees a client over any run: exactly-once, in-order delivery across
    disconnections, stated against a view of the client that only looks at the events. */
module Delivery {
  import opened Wrappers
  import opened Broker

  // ---- The reference: one client, as it follows from the events ------------------------------

  /** fd: its connection, if any.  subs: the store-and-forward flag of each subscription.
      expected: the messages it is owed so far, in order. */
  datatype View = View(fd: Option<int>, subs: map<string, bool>, expected: seq<string>)

  /** One event as it concerns client c; ends says whether an unsubscribe ends a subscription of
      c.  The flag counts as given when the subscription was made. */
  function Observe(v: View, e: Event, c: string, ends: bool): (v': View) {
    match e
    case Publish(topic, text) =>
      if topic in v.subs && (v.fd.Some? || v.subs[topic])
      then v.(expected := v.expected + [text]) else v
    case Accept(newFd, id) =>
      if id == c && v.fd.None? then v.(fd := Some(newFd)) else v
    case Eof(fd) =>
      if v.fd == Some(fd) then v.(fd := None) else v
    case Subscribe(fd, topic, sf) =>
      if v.fd == Some(fd) && topic !in v.subs then v.(subs := v.subs[topic := sf]) else v
    case Unsubscribe(_, topic) =>
      if ends then v.(subs := v.subs - {topic}) else v
  }

  /** What an unsubscribe is for: the client asks for it on its own connection. */
  predicate Asks(v: View, e: Event) {
    e.Unsubscribe? && v.fd == Some(e.fd)
  }

  /** What an unsubscribe does: the entry it erases is the client's. */
  predicate Loses(s: State, e: Event, c: string)
    requires Defined(s, e)
  {
    e.Unsubscribe? && Erases(s, e.fd, e.topic) && Entries(s, e.topic)[e.fd].clientID == c
  }

  /** The texts among outs that went to descriptor fd. */
  function TextsTo(outs: seq<Send>, fd: Option<int>): (texts: seq<string>) {
    if |outs| == 0 then []
    else (if fd == Some(outs[0].fd) then [outs[0].text] else []) + TextsTo(outs[1..], fd)
  }

  // ---- Runs -----------------------------------------------------------------------------------

  /** accept returns a descriptor that is not open, and select reports only watched ones. */
  predicate Environment(s: State, e: Event) {
    match e
    case Publish(_, _) => true
    case Accept(newFd, _) => newFd !in s.readFds
    case Eof(fd) => fd in s.readFds
    case Subscribe(fd, _, _) => fd in s.readFds
    case Unsubscribe(fd, _) => fd in s.readFds
  }

  /** The erase index of line 322, the descriptor, happens to be the client's own position. */
  predicate Aligned(s: State, e: Event) {
    e.Unsubscribe? && Erases(s, e.fd, e.topic) ==>
      e.fd == Position(Entries(s, e.topic), s.clients[e.fd])
  }

  /** A run from s: what the environment may do, with every erase inside its vector. */
  ghost predicate Run(s: State, es: seq<Event>)
    decreases |es|
  {
    |es| == 0 ||
      (Environment(s, es[0]) && Defined(s, es[0]) && Run(Step(s, es[0]).0, es[1..]))
  }

  /** Every erase of the run is at the right index. */
  ghost predicate AllAligned(s: State, es: seq<Event>)
    requires Run(s, es)
    decreases |es|
  {
    |es| > 0 ==> Aligned(s, es[0]) && AllAligned(Step(s, es[0]).0, es[1..])
  }

  ghost function After(s: State, es: seq<Event>): (s': State)
    requires Run(s, es)
    decreases |es|
  {
    if |es| == 0 then s else After(Step(s, es[0]).0, es[1..])
  }

  /** The view with the subscriptions the client really holds an entry for. */
  ghost function HeldAfter(s: State, v: View, es: seq<Event>, c: string): (v': View)
    requires Run(s, es)
    decreases |es|
  {
    if |es| == 0 then v
    else HeldAfter(Step(s, es[0]).0, Observe(v, es[0], c, Loses(s, es[0], c)), es[1..], c)
  }

  /** The view with the subscriptions the client asked for, by the events alone. */
  ghost function AskedAfter(v: View, es: seq<Event>, c: string): (v': View)
    decreases |es|
  {
    if |es| == 0 then v else AskedAfter(Observe(v, es[0], c, Asks(v, es[0])), es[1..], c)
  }

  /** Everything sent to the client on any of its connections, in order.  Which they are does not
      depend on its subscriptions. */
  ghost function Received(s: State, v: View, es: seq<Event>, c: string): (texts: seq<string>)
    requires Run(s, es)
    decreases |es|
  {
    if |es| == 0 then []
    else
      var step, v' := Step(s, es[0]), Observe(v, es[0], c, Loses(s, es[0], c));
      TextsTo(step.1, v'.fd) + Received(step.0, v', es[1..], c)
  }

  function Stored(s: State, c: string): (texts: seq<string>) {
    if c in s.subscribers then s.subscribers[c].packets else []
  }

  // ---- Invariants -----------------------------------------------------------------------------

  ghost predicate DistinctIds(entries: seq<Entry>) {
    forall i, j :: 0 <= i < j < |entries| ==> entries[i].clientID != entries[j].clientID
  }

  /** The three maps agree: a connected client has one descriptor, known to both maps, and
      nothing stored; a client appears once per topic. */
  ghost predicate Consistent(s: State) {
    && (forall fd :: fd in s.clients && s.clients[fd] != "" ==>
          var id := s.clients[fd];
          id in s.subscribers && s.subscribers[id].connected && s.subscribers[id].fd == fd)
    && (forall id :: id in s.subscribers && s.subscribers[id].connected ==>
          var sub := s.subscribers[id];
          sub.packets == [] && sub.fd in s.clients && s.clients[sub.fd] == id)
    && s.clients.Keys <= s.readFds
    && (forall topic :: topic in s.topics ==> DistinctIds(s.topics[topic]))
  }

  function FlagOf(entries: seq<Entry>, c: string): (sf: Option<bool>) {
    var j := Position(entries, c);
    if j < |entries| then Some(entries[j].sf) else None
  }

  /** The client's view is what the maps say. */
  ghost predicate Tracks(s: State, v: View, c: string) {
    && v.fd == (if c in s.subscribers && s.subscribers[c].connected
                then Some(s.subscribers[c].fd) else None)
    && (forall topic :: FlagOf(Entries(s, topic), c)
                     == if topic in v.subs then Some(v.subs[topic]) else None)
    && (v.subs != map[] ==> c in s.subscribers)
  }

  // ---- Delivery of one message ------------------------------------------------------------------

  ghost predicate OneOwnerPerFd(subs: map<string, Subscriber>) {
    forall a, b :: a in subs && b in subs && a != b && subs[a].connected && subs[b].connected ==>
      subs[a].fd != subs[b].fd
  }

  /** Delivery changes nothing but the packets of disconnected clients. */
  ghost predicate SameButPackets(subs: map<string, Subscriber>, subs': map<string, Subscriber>) {
    && subs'.Keys == subs.Keys
    && forall id :: id in subs ==>
         && subs'[id].connected == subs[id].connected && subs'[id].fd == subs[id].fd
         && (subs[id].connected ==> subs'[id].packets == subs[id].packets)
  }

  lemma {:induction false} DeliverKeepsConnections(subs: map<string, Subscriber>, entries: seq<Entry>, text: string)
    ensures SameButPackets(subs, Deliver(subs, entries, text).0)
    decreases |entries|
  {
    if |entries| > 0 {
      DeliverKeepsConnections(DeliverOne(subs, entries[0], text).0, entries[1..], text);
    }
  }

  lemma {:induction false} TextsToAppend(a: seq<Send>, b: seq<Send>, fd: Option<int>)
    ensures TextsTo(a + b, fd) == TextsTo(a, fd) + TextsTo(b, fd)
  {
    hide TextsTo;
    if |a| == 0 {
      TextsToNone(a, fd);
      assert a + b == b;
    } else {
      TextsToAppend(a[1..], b, fd);
      assert (a + b)[0] == a[0] && (a + b)[1..] == a[1..] + b;
      TextsToFirst(a, fd, TextsTo(b, fd));
      TextsToFirst(a + b, fd, []);
    }
  }

  lemma TextsToNone(outs: seq<Send>, fd: Option<int>)
    requires |outs| == 0
    ensures TextsTo(outs, fd) == []
  {
  }

  lemma TextsToFirst(outs: seq<Send>, fd: Option<int>, more: seq<string>)
    requires |outs| > 0
    ensures TextsTo(outs, fd) + more
         == (if fd == Some(outs[0].fd) then [outs[0].text] else []) + (TextsTo(outs[1..], fd) + more)
    ensures TextsTo(outs, fd)
         == (if fd == Some(outs[0].fd) then [outs[0].text] else []) + TextsTo(outs[1..], fd)
  {
  }

  function Connection(subs: map<string, Subscriber>, c: string): (fd: Option<int>) {
    if c in subs && subs[c].connected then Some(subs[c].fd) else None
  }

  /** One pass of the loop gives the entry's client the message and touches nobody else. */
  lemma DeliverOneEffect(subs: map<string, Subscriber>, e: Entry, text: string, c: string)
    requires OneOwnerPerFd(subs) && c in subs
    ensures var r := DeliverOne(subs, e, text); r.0.Keys == subs.Keys && OneOwnerPerFd(r.0)
    ensures var r := DeliverOne(subs, e, text); r.0[c].connected == subs[c].connected
    ensures var r := DeliverOne(subs, e, text); Connection(r.0, c) == Connection(subs, c)
    ensures e.clientID != c ==> DeliverOne(subs, e, text).0[c] == subs[c]
    ensures TextsTo(DeliverOne(subs, e, text).1, Connection(subs, c))
         == if e.clientID == c && subs[c].connected then [text] else []
    ensures DeliverOne(subs, e, text).0[c].packets == subs[c].packets
          + if e.clientID == c && !subs[c].connected && e.sf then [text] else []
  {
  }

  lemma {:induction false} DeliverToStranger(subs: map<string, Subscriber>, entries: seq<Entry>,
                                             text: string, c: string)
    requires OneOwnerPerFd(subs) && c in subs
    requires Position(entries, c) == |entries|
    ensures Deliver(subs, entries, text).0.Keys == subs.Keys
    ensures Deliver(subs, entries, text).0[c] == subs[c]
    ensures TextsTo(Deliver(subs, entries, text).1, Connection(subs, c)) == []
    decreases |entries|
  {
    if |entries| > 0 {
      hide DeliverOne, Connection, OneOwnerPerFd;
      var first := DeliverOne(subs, entries[0], text);
      DeliverOneEffect(subs, entries[0], text, c);
      DeliverToStranger(first.0, entries[1..], text, c);
      TextsToAppend(first.1, Deliver(first.0, entries[1..], text).1, Connection(subs, c));
    }
  }

  /** A subscriber gets the message once: on the wire if connected, else stored if its flag says so. */
  lemma {:induction false} DeliverToSubscriber(subs: map<string, Subscriber>, entries: seq<Entry>,
                                               text: string, c: string)
    requires OneOwnerPerFd(subs) && c in subs && DistinctIds(entries)
    requires Position(entries, c) < |entries|
    ensures Deliver(subs, entries, text).0.Keys == subs.Keys
    ensures TextsTo(Deliver(subs, entries, text).1, Connection(subs, c))
         == if subs[c].connected then [text] else []
    ensures Deliver(subs, entries, text).0[c].packets == subs[c].packets
          + if !subs[c].connected && entries[Position(entries, c)].sf then [text] else []
    decreases |entries|
  {
    hide DeliverOne, Connection, OneOwnerPerFd;
    var first := DeliverOne(subs, entries[0], text);
    DeliverOneEffect(subs, entries[0], text, c);
    TextsToAppend(first.1, Deliver(first.0, entries[1..], text).1, Connection(subs, c));
    if entries[0].clientID == c {
      AbsentAfter(entries, c);
      DeliverToStranger(first.0, entries[1..], text, c);
    } else {
      assert DistinctIds(entries[1..]);
      DeliverToSubscriber(first.0, entries[1..], text, c);
    }
  }

  lemma AbsentAfter(entries: seq<Entry>, c: string)
    requires DistinctIds(entries) && |entries| > 0 && entries[0].clientID == c
    ensures Position(entries[1..], c) == |entries[1..]|
  {
  }

  // ---- One event keeps everything -------------------------------------------------------------

  lemma ConsistentFds(s: State)
    requires Consistent(s)
    ensures OneOwnerPerFd(s.subscribers)
  {
  }

  lemma PublishKeepsConsistent(s: State, topic: string, text: string)
    requires Consistent(s)
    ensures Consistent(Step(s, Publish(topic, text)).0)
  {
    hide Deliver, DistinctIds;
    DeliverKeepsConnections(s.subscribers, Entries(s, topic), text);
  }

  lemma ConnectionKeepsConsistent(s: State, e: Event)
    requires Consistent(s) && Environment(s, e) && (e.Accept? || e.Eof?)
    ensures Consistent(Step(s, e).0)
  {
    hide DistinctIds;
  }

  lemma SubscribeKeepsConsistent(s: State, fd: int, topic: string, sf: bool)
    requires Consistent(s)
    ensures Consistent(Step(s, Subscribe(fd, topic, sf)).0)
  {
  }

  lemma UnsubscribeKeepsConsistent(s: State, fd: int, topic: string)
    requires Consistent(s) && Defined(s, Unsubscribe(fd, topic))
    ensures Consistent(Step(s, Unsubscribe(fd, topic)).0)
  {
  }

  lemma StepKeepsConsistent(s: State, e: Event)
    requires Consistent(s) && Environment(s, e) && Defined(s, e)
    ensures Consistent(Step(s, e).0)
  {
    hide Consistent, Step, Defined;
    match e
    case Publish(topic, text) => PublishKeepsConsistent(s, topic, text);
    case Accept(_, _) => ConnectionKeepsConsistent(s, e);
    case Eof(_) => ConnectionKeepsConsistent(s, e);
    case Subscribe(fd, topic, sf) => SubscribeKeepsConsistent(s, fd, topic, sf);
    case Unsubscribe(fd, topic) => UnsubscribeKeepsConsistent(s, fd, topic);
  }

  lemma {:induction false} TextsOfSendAll(fd: int, packets: seq<string>)
    ensures TextsTo(SendAll(fd, packets), Some(fd)) == packets
  {
    if |packets| > 0 {
      TextsOfSendAll(fd, packets[1..]);
      assert SendAll(fd, packets)[1..] == SendAll(fd, packets[1..]);
    }
  }

  lemma NothingForOthers(outs: seq<Send>, fd: Option<int>)
    requires forall i :: 0 <= i < |outs| ==> fd != Some(outs[i].fd)
    ensures TextsTo(outs, fd) == []
  {
  }

  lemma PositionOfAppend(entries: seq<Entry>, e: Entry, c: string)
    ensures Position(entries + [e], c)
         == if Position(entries, c) < |entries| then Position(entries, c)
            else if e.clientID == c then |entries| else |entries| + 1
  {
    var j := Position(entries + [e], c);
    var k := Position(entries, c);
    if k < |entries| {
      assert (entries + [e])[k].clientID == c;
    } else if e.clientID == c {
      assert (entries + [e])[|entries|].clientID == c;
    }
  }

  /** Erasing the entry at p takes away exactly the flag of its owner. */
  lemma FlagAfterErase(entries: seq<Entry>, p: nat, c: string)
    requires DistinctIds(entries) && p < |entries|
    ensures FlagOf(entries[..p] + entries[p + 1..], c)
         == if entries[p].clientID == c then None else FlagOf(entries, c)
  {
    var left := entries[..p] + entries[p + 1..];
    var j, k := Position(entries, c), Position(left, c);
    if j < |entries| && j != p {
      var m := if j < p then j else j - 1;
      assert left[m] == entries[j];
    }
    if k < |left| {
      var m := if k < p then k else k + 1;
      assert left[k] == entries[m];
    }
  }

  /** What leaves the topics alone needs to be looked at for the connection only. */
  lemma TopicsKept(s: State, s': State, v: View, v': View, c: string)
    requires Tracks(s, v, c) && s'.topics == s.topics && v'.subs == v.subs
    requires v'.fd == Connection(s'.subscribers, c) && (c in s.subscribers ==> c in s'.subscribers)
    ensures Tracks(s', v', c)
  {
    hide FlagOf;
    forall t ensures Entries(s', t) == Entries(s, t) {}
  }

  lemma PublishKeepsTracks(s: State, topic: string, text: string, v: View, c: string)
    requires Tracks(s, v, c)
    ensures Tracks(Step(s, Publish(topic, text)).0, Observe(v, Publish(topic, text), c, false), c)
  {
    hide Deliver, FlagOf, Consistent;
    DeliverKeepsConnections(s.subscribers, Entries(s, topic), text);
    TopicsKept(s, Step(s, Publish(topic, text)).0, v, Observe(v, Publish(topic, text), c, false), c);
  }

  lemma AcceptKeepsTracks(s: State, newFd: int, id: string, v: View, c: string)
    requires Tracks(s, v, c)
    ensures Tracks(Step(s, Accept(newFd, id)).0, Observe(v, Accept(newFd, id), c, false), c)
  {
    hide FlagOf, Position, Deliver;
    TopicsKept(s, Step(s, Accept(newFd, id)).0, v, Observe(v, Accept(newFd, id), c, false), c);
  }

  lemma EofKeepsTracks(s: State, fd: int, v: View, c: string)
    requires Consistent(s) && c != "" && Tracks(s, v, c)
    ensures Tracks(Step(s, Eof(fd)).0, Observe(v, Eof(fd), c, false), c)
  {
    OwnCommands(s, v, c, fd);
    hide FlagOf, Position, Deliver, Consistent;
    TopicsKept(s, Step(s, Eof(fd)).0, v, Observe(v, Eof(fd), c, false), c);
  }

  /** The client's own commands are those arriving on its descriptor. */
  lemma OwnCommands(s: State, v: View, c: string, fd: int)
    requires Consistent(s) && c != "" && Tracks(s, v, c)
    ensures v.fd == Some(fd) <==> fd in s.clients && s.clients[fd] == c
    ensures v.fd == Some(fd) ==> c in s.subscribers
  {
  }

  lemma FlagAfterSubscribe(s: State, fd: int, topic: string, sf: bool, c: string, t: string)
    ensures FlagOf(Entries(Step(s, Subscribe(fd, topic, sf)).0, t), c)
         == if t == topic && fd in s.clients && s.clients[fd] == c && FlagOf(Entries(s, t), c).None?
            then Some(sf) else FlagOf(Entries(s, t), c)
  {
    if fd in s.clients {
      PositionOfAppend(Entries(s, topic), Entry(s.clients[fd], sf), c);
    }
  }

  lemma FlagAfterUnsubscribe(s: State, fd: int, topic: string, c: string, t: string)
    requires Consistent(s) && Defined(s, Unsubscribe(fd, topic))
    ensures FlagOf(Entries(Step(s, Unsubscribe(fd, topic)).0, t), c)
         == if t == topic && Loses(s, Unsubscribe(fd, topic), c) then None else FlagOf(Entries(s, t), c)
  {
    if Erases(s, fd, topic) {
      FlagAfterErase(Entries(s, topic), fd, c);
    }
  }

  lemma FlagAsViewed(s: State, fd: int, topic: string, sf: bool, v: View, c: string, t: string)
    requires Consistent(s) && c != "" && Tracks(s, v, c)
    ensures var s', v' := Step(s, Subscribe(fd, topic, sf)).0, Observe(v, Subscribe(fd, topic, sf), c, false);
            FlagOf(Entries(s', t), c) == if t in v'.subs then Some(v'.subs[t]) else None
  {
    OwnCommands(s, v, c, fd);
    FlagAfterSubscribe(s, fd, topic, sf, c, t);
    hide FlagOf, Entries, Position, Consistent, Step;
    assert FlagOf(Entries(s, t), c) == if t in v.subs then Some(v.subs[t]) else None;
  }

  lemma SubscribeKeepsTracks(s: State, fd: int, topic: string, sf: bool, v: View, c: string)
    requires Consistent(s) && c != "" && Tracks(s, v, c)
    ensures Tracks(Step(s, Subscribe(fd, topic, sf)).0, Observe(v, Subscribe(fd, topic, sf), c, false), c)
  {
    OwnCommands(s, v, c, fd);
    hide FlagOf, Entries, Position, Consistent;
    forall t { FlagAsViewed(s, fd, topic, sf, v, c, t); }
  }

  lemma UnsubscribeKeepsTracks(s: State, fd: int, topic: string, v: View, c: string)
    requires Consistent(s) && Defined(s, Unsubscribe(fd, topic)) && Tracks(s, v, c)
    ensures var e := Unsubscribe(fd, topic);
            Tracks(Step(s, e).0, Observe(v, e, c, Loses(s, e, c)), c)
  {
    hide FlagOf, Entries, Position, Consistent, Erases, Defined, Loses;
    forall t { FlagAfterUnsubscribe(s, fd, topic, c, t); }
  }

  lemma StepKeepsTracks(s: State, e: Event, v: View, c: string)
    requires Consistent(s) && Environment(s, e) && Defined(s, e) && c != "" && Tracks(s, v, c)
    ensures Tracks(Step(s, e).0, Observe(v, e, c, Loses(s, e, c)), c)
  {
    OnlyUnsubscribeEnds(s, e, v, c);
    hide Tracks, Step, Observe, Consistent, Environment, Defined, Loses;
    match e
    case Publish(topic, text) => PublishKeepsTracks(s, topic, text, v, c);
    case Accept(newFd, id) => AcceptKeepsTracks(s, newFd, id, v, c);
    case Eof(fd) => EofKeepsTracks(s, fd, v, c);
    case Subscribe(fd, topic, sf) => SubscribeKeepsTracks(s, fd, topic, sf, v, c);
    case Unsubscribe(fd, topic) => UnsubscribeKeepsTracks(s, fd, topic, v, c);
  }

  lemma OnlyUnsubscribeEnds(s: State, e: Event, v: View, c: string)
    ensures !e.Unsubscribe? ==> Defined(s, e) && !Loses(s, e, c) && !Asks(v, e)
    ensures e.Publish? ==> Environment(s, e)
  {
  }

  /** What was stored plus what became due is what was sent plus what is now stored. */
  lemma StepConserves(s: State, e: Event, v: View, c: string)
    requires Consistent(s) && Environment(s, e) && Defined(s, e) && c != "" && Tracks(s, v, c)
    ensures var v' := Observe(v, e, c, Loses(s, e, c));
      && v.expected <= v'.expected
      && Stored(s, c) + v'.expected[|v.expected|..] == TextsTo(Step(s, e).1, v'.fd) + Stored(Step(s, e).0, c)
  {
    OnlyUnsubscribeEnds(s, e, v, c);
    if e.Publish? {
      hide Consistent, Tracks, Deliver, Environment, Defined, Loses;
      PublishConserves(s, e.topic, e.text, v, c);
    } else if e.Accept? {
      hide Consistent, Tracks, Defined, Loses;
      AcceptConserves(s, e.newFd, e.id, v, c);
    } else {
      hide Consistent, Tracks, Environment, Erases, Position, Loses;
    }
  }

  /** A new connection gets what was stored; a rejected one nothing of the client's. */
  lemma AcceptConserves(s: State, newFd: int, id: string, v: View, c: string)
    requires Consistent(s) && newFd !in s.readFds && Tracks(s, v, c)
    ensures Stored(s, c)
         == TextsTo(Step(s, Accept(newFd, id)).1, Observe(v, Accept(newFd, id), c, false).fd)
          + Stored(Step(s, Accept(newFd, id)).0, c)
  {
    hide FlagOf;
    if id == c && v.fd.None? {
      TextsOfSendAll(newFd, Stored(s, c));
    } else {
      assert v.fd != Some(newFd);
      NothingForOthers(Step(s, Accept(newFd, id)).1, v.fd);
    }
  }

  lemma PublishConserves(s: State, topic: string, text: string, v: View, c: string)
    requires Consistent(s) && c != "" && Tracks(s, v, c)
    ensures Stored(s, c) + Observe(v, Publish(topic, text), c, false).expected[|v.expected|..]
         == TextsTo(Step(s, Publish(topic, text)).1, v.fd) + Stored(Step(s, Publish(topic, text)).0, c)
  {
    var entries := Entries(s, topic);
    ConsistentFds(s);
    DeliverKeepsConnections(s.subscribers, entries, text);
    if c !in s.subscribers {
      NothingForNobody(Step(s, Publish(topic, text)).1);
    } else if topic in v.subs {
      DeliverToSubscriber(s.subscribers, entries, text, c);
    } else {
      DeliverToStranger(s.subscribers, entries, text, c);
    }
  }

  lemma {:induction false} NothingForNobody(outs: seq<Send>)
    ensures TextsTo(outs, None) == []
  {
    if |outs| > 0 { NothingForNobody(outs[1..]); }
  }

  // ---- All runs ---------------------------------------------------------------------------------

  lemma Chain(a: seq<string>, sent: seq<string>, b: seq<string>, rest: seq<string>, d: seq<string>,
              x: seq<string>, y: seq<string>, z: seq<string>)
    requires x <= y <= z
    requires a + y[|x|..] == sent + b && b + z[|y|..] == rest + d
    ensures x <= z && a + z[|x|..] == (sent + rest) + d
  {
    assert z[|x|..] == y[|x|..] + z[|y|..];
    assert a + z[|x|..] == (a + y[|x|..]) + z[|y|..];
    assert (sent + b) + z[|y|..] == sent + (b + z[|y|..]);
    assert sent + (rest + d) == (sent + rest) + d;
  }

  lemma {:induction false} RunKeepsEverything(s: State, es: seq<Event>, v: View, c: string)
    requires Consistent(s) && Run(s, es) && c != "" && Tracks(s, v, c)
    ensures var w := HeldAfter(s, v, es, c);
      && Consistent(After(s, es)) && Tracks(After(s, es), w, c)
      && v.expected <= w.expected
      && Stored(s, c) + w.expected[|v.expected|..] == Received(s, v, es, c) + Stored(After(s, es), c)
    decreases |es|
  {
    if |es| > 0 {
      hide Consistent, Tracks, Step, Observe, Environment, Defined, Stored, Loses;
      var e, s', v' := es[0], Step(s, es[0]).0, Observe(v, es[0], c, Loses(s, es[0], c));
      StepKeepsConsistent(s, e);
      StepKeepsTracks(s, e, v, c);
      StepConserves(s, e, v, c);
      RunKeepsEverything(s', es[1..], v', c);
      Chain(Stored(s, c), TextsTo(Step(s, e).1, v'.fd), Stored(s', c), Received(s', v', es[1..], c),
            Stored(After(s', es[1..]), c), v.expected, v'.expected, HeldAfter(s', v', es[1..], c).expected);
    }
  }

  const UNKNOWN := View(None, map[], [])

  /** In every run what a client has received over all its connections, followed by what is stored
      for it, is exactly what was published, in order and once each, while it held an entry for
      the topic and was connected or had its flag set.  While it is connected nothing is stored. */
  lemma DeliveredWhileHeld(es: seq<Event>, c: string)
    requires Run(INIT, es) && c != ""
    ensures var w := HeldAfter(INIT, UNKNOWN, es, c);
      && Consistent(After(INIT, es)) && Tracks(After(INIT, es), w, c)
      && Received(INIT, UNKNOWN, es, c) + Stored(After(INIT, es), c) == w.expected
      && (w.fd.Some? ==> Received(INIT, UNKNOWN, es, c) == w.expected)
  {
    RunKeepsEverything(INIT, es, UNKNOWN, c);
    var w := HeldAfter(INIT, UNKNOWN, es, c).expected;
    assert w[0..] == w;
  }

  /** At the right index an unsubscribe ends what was asked to end. */
  lemma AlignedLosesAsked(s: State, e: Event, v: View, c: string)
    requires Consistent(s) && c != "" && Tracks(s, v, c) && Defined(s, e) && Aligned(s, e)
    ensures Observe(v, e, c, Loses(s, e, c)) == Observe(v, e, c, Asks(v, e))
  {
    if e.Unsubscribe? {
      OwnCommands(s, v, c, e.fd);
      hide Consistent;
      assert FlagOf(Entries(s, e.topic), c) == if e.topic in v.subs then Some(v.subs[e.topic]) else None;
      assert e.topic !in v.subs ==> v.subs - {e.topic} == v.subs;
    }
  }

  lemma {:induction false} HeldIsAsked(s: State, es: seq<Event>, v: View, c: string)
    requires Consistent(s) && c != "" && Tracks(s, v, c) && Run(s, es) && AllAligned(s, es)
    ensures HeldAfter(s, v, es, c) == AskedAfter(v, es, c)
    decreases |es|
  {
    if |es| > 0 {
      hide Consistent, Tracks, Step, Observe, Environment, Defined, Aligned, Loses, Asks;
      AlignedLosesAsked(s, es[0], v, c);
      StepKeepsConsistent(s, es[0]);
      StepKeepsTracks(s, es[0], v, c);
      HeldIsAsked(Step(s, es[0]).0, es[1..], Observe(v, es[0], c, Loses(s, es[0], c)), c);
    }
  }

  /** Exactly once, in order, by the events alone: when every erase is at the right index, what a
      client has received over all its connections, followed by what is stored for it, is exactly
      what it asked for. */
  lemma ExactlyOnceInOrder(es: seq<Event>, c: string)
    requires Run(INIT, es) && AllAligned(INIT, es) && c != ""
    ensures var w := AskedAfter(UNKNOWN, es, c);
      && Received(INIT, UNKNOWN, es, c) + Stored(After(INIT, es), c) == w.expected
      && (w.fd.Some? ==> Received(INIT, UNKNOWN, es, c) == w.expected)
  {
    DeliveredWhileHeld(es, c);
    HeldIsAsked(INIT, es, UNKNOWN, c);
  }

  // ---- Unsubscribing ------------------------------------------------------------------------------

  /** What unsubscribing is for: the client loses this subscription and nobody else loses any. */
  ghost predicate MeetsIntent(s: State, fd: int, topic: string, s': State)
    requires fd in s.clients
  {
    forall c, t :: FlagOf(Entries(s', t), c)
                == if c == s.clients[fd] && t == topic then None else FlagOf(Entries(s, t), c)
  }

  /** The erase of line 322 does that exactly when the descriptor equals the client's position. */
  lemma UnsubscribeMeetsIntentIffAligned(s: State, fd: int, topic: string)
    requires Consistent(s) && fd in s.clients && Erases(s, fd, topic)
    requires Defined(s, Unsubscribe(fd, topic))
    ensures MeetsIntent(s, fd, topic, Step(s, Unsubscribe(fd, topic)).0)
        <==> Aligned(s, Unsubscribe(fd, topic))
  {
    var entries, s' := Entries(s, topic), Step(s, Unsubscribe(fd, topic)).0;
    var me := s.clients[fd];
    forall c ensures FlagOf(Entries(s', topic), c)
                  == if entries[fd].clientID == c then None else FlagOf(entries, c)
    {
      FlagAfterErase(entries, fd, c);
    }
    if fd != Position(entries, me) {
      assert entries[fd].clientID != me;
      assert FlagOf(Entries(s', topic), me) == FlagOf(entries, me) != None;
    }
  }

  // ---- A run in which unsubscribing goes wrong --------------------------------------------------

  const NAMES := ["a", "b", "c", "d", "e", "f"]

  /** The first k clients connect, on descriptors from 5 on, and subscribe. */
  function Joining(k: nat): (es: seq<Event>)
    requires k <= 6
  {
    if k == 0 then []
    else Joining(k - 1) + [Accept(4 + k, NAMES[k - 1])] + [Subscribe(4 + k, "t", true)]
  }

  lemma JoiningNext(k: nat)
    requires k < 6
    ensures Joining(k + 1) == Joining(k) + [Accept(5 + k, NAMES[k])] + [Subscribe(5 + k, "t", true)]
  {
  }

  function Connected(s: State, fd: int, id: string): (s': State) {
    s.(clients := s.clients[fd := id], readFds := s.readFds + {fd},
       subscribers := s.subscribers[id := Subscriber(true, fd, [])])
  }

  function Subscribed(k: nat): (entries: seq<Entry>)
    requires k <= 6
  {
    seq(k, i requires 0 <= i < k => Entry(NAMES[i], true))
  }

  function Joined(k: nat): (s: State)
    requires k <= 6
  {
    if k == 0 then INIT
    else Connected(Joined(k - 1), 4 + k, NAMES[k - 1]).(topics := map["t" := Subscribed(k)])
  }

  /** What of the state matters for going on. */
  lemma {:induction false} JoinedState(k: nat)
    requires k <= 6
    ensures var s := Joined(k);
      && (forall fd :: fd in s.readFds ==> fd < 5 + k)
      && (forall id :: id in s.subscribers ==> id in NAMES[..k])
      && s.topics == (if k == 0 then map[] else map["t" := Subscribed(k)])
      && (k > 0 ==> 5 in s.clients && 5 in s.readFds && s.clients[5] == "a")
  {
    if k > 0 { JoinedState(k - 1); }
  }

  lemma NamesDistinct()
    ensures |NAMES| == 6 && forall i, j :: 0 <= i < j < 6 ==> NAMES[i] != NAMES[j]
  {
    assert forall i :: 0 <= i < 6 ==> |NAMES[i]| == 1 && NAMES[i][0] == "abcdef"[i];
  }

  lemma PositionOfName(k: nat, i: nat)
    requires k <= 6 && i < 6
    ensures Position(Subscribed(k), NAMES[i]) == if i < k then i else k
  {
    NamesDistinct();
    var j := Position(Subscribed(k), NAMES[i]);
    if i < k { assert Subscribed(k)[i].clientID == NAMES[i]; }
  }

  /** One more client: the state, and that nothing is sent. */
  lemma ConnectStep(k: nat)
    requires k < 6
    ensures Environment(Joined(k), Accept(5 + k, NAMES[k]))
    ensures Step(Joined(k), Accept(5 + k, NAMES[k])) == (Connected(Joined(k), 5 + k, NAMES[k]), [])
  {
    JoinedState(k);
    NamesDistinct();
    hide Joined;
    assert NAMES[k] !in Joined(k).subscribers;
    assert SendAll(5 + k, []) == [];
  }

  lemma JoinedNext(k: nat)
    requires k < 6
    ensures Joined(k + 1) == Connected(Joined(k), 5 + k, NAMES[k]).(topics := map["t" := Subscribed(k + 1)])
  {
  }

  lemma ConnectedState(k: nat)
    requires k < 6
    ensures var s := Connected(Joined(k), 5 + k, NAMES[k]);
      && 5 + k in s.readFds && 5 + k in s.clients && s.clients[5 + k] == NAMES[k]
      && Entries(s, "t") == Subscribed(k)
      && s.topics["t" := Subscribed(k + 1)] == map["t" := Subscribed(k + 1)]
  {
    JoinedState(k);
    hide Joined;
  }

  lemma SubscribeStep(k: nat)
    requires k < 6
    ensures var s, e := Connected(Joined(k), 5 + k, NAMES[k]), Subscribe(5 + k, "t", true);
            Environment(s, e) && Step(s, e) == (Joined(k + 1), [])
  {
    ConnectedState(k);
    PositionOfName(k, k);
    JoinedNext(k);
    assert Subscribed(k) + [Entry(NAMES[k], true)] == Subscribed(k + 1);
    hide Position, Joined, Subscribed, Connected, Entries;
  }

  lemma {:induction false} OneMore(s: State, es: seq<Event>, e: Event, v: View, c: string)
    requires Run(s, es) && Environment(After(s, es), e) && Defined(After(s, es), e)
    ensures Run(s, es + [e]) && After(s, es + [e]) == Step(After(s, es), e).0
    ensures HeldAfter(s, v, es + [e], c)
         == Observe(HeldAfter(s, v, es, c), e, c, Loses(After(s, es), e, c))
    ensures AskedAfter(v, es + [e], c)
         == Observe(AskedAfter(v, es, c), e, c, Asks(AskedAfter(v, es, c), e))
    decreases |es|
  {
    if |es| == 0 {
      assert es + [e] == [e] && [e][1..] == [];
    } else {
      assert (es + [e])[0] == es[0] && (es + [e])[1..] == es[1..] + [e];
      hide Step, Observe, Environment, Defined, Loses, Asks;
      OneMore(Step(s, es[0]).0, es[1..], e, Observe(v, es[0], c, Loses(s, es[0], c)), c);
      OneMore(Step(s, es[0]).0, es[1..], e, Observe(v, es[0], c, Asks(v, es[0])), c);
    }
  }

  function ViewOf(i: nat, k: nat): (v: View) {
    if i < k then View(Some(5 + i), map["t" := true], []) else UNKNOWN
  }

  lemma ViewStep(k: nat, i: nat)
    requires k < 6 && i < 6
    ensures Observe(Observe(ViewOf(i, k), Accept(5 + k, NAMES[k]), NAMES[i], false),
                    Subscribe(5 + k, "t", true), NAMES[i], false) == ViewOf(i, k + 1)
  {
    NamesDistinct();
    assert map[]["t" := true] == map["t" := true];
  }

  lemma NobodyJoined(i: nat)
    requires i < 6
    ensures Joining(0) == [] && Run(INIT, []) && After(INIT, []) == INIT == Joined(0)
    ensures HeldAfter(INIT, UNKNOWN, [], NAMES[i]) == AskedAfter(UNKNOWN, [], NAMES[i]) == ViewOf(i, 0)
  {
  }

  /** After k rounds: the state and the i-th client's view, by its entries and by the events. */
  lemma {:induction false} JoiningRun(k: nat, i: nat)
    requires k <= 6 && i < 6
    ensures Run(INIT, Joining(k)) && After(INIT, Joining(k)) == Joined(k)
    ensures HeldAfter(INIT, UNKNOWN, Joining(k), NAMES[i]) == ViewOf(i, k)
    ensures AskedAfter(UNKNOWN, Joining(k), NAMES[i]) == ViewOf(i, k)
  {
    hide *;
    NamesDistinct();
    if k == 0 {
      NobodyJoined(i);
    } else {
      var es, c, e1, e2 := Joining(k - 1), NAMES[i], Accept(4 + k, NAMES[k - 1]), Subscribe(4 + k, "t", true);
      assert Joining(k) == es + [e1] + [e2] by { JoiningNext(k - 1); }
      JoiningRun(k - 1, i);
      ConnectStep(k - 1);
      SubscribeStep(k - 1);
      ViewStep(k - 1, i);
      OnlyUnsubscribeEnds(After(INIT, es), e1, ViewOf(i, k - 1), c);
      OneMore(INIT, es, e1, UNKNOWN, c);
      OnlyUnsubscribeEnds(After(INIT, es + [e1]), e2, AskedAfter(UNKNOWN, es + [e1], c), c);
      OneMore(INIT, es + [e1], e2, UNKNOWN, c);
    }
  }

  /** In that state the first client unsubscribes: the erase takes the sixth client's entry. */
  lemma WrongEntryErased()
    ensures var s, e := Joined(6), Unsubscribe(5, "t");
      && Environment(s, e) && Defined(s, e) && !Aligned(s, e)
      && Loses(s, e, "f") && !Loses(s, e, "a")
  {
    JoinedState(6);
    PositionOfName(6, 0);
    assert NAMES[5] == "f" && NAMES[0] == "a" && "a"[0] != "f"[0];
  }

  function Mistaken(): (es: seq<Event>) {
    Joining(6) + [Unsubscribe(5, "t")] + [Publish("t", "m")]
  }

  /** A publication after that reaches the first client, which had unsubscribed, and not the
      sixth, which had not: without aligned erases delivery is not by the events alone. */
  lemma UnsubscribeExample()
    ensures Run(INIT, Mistaken()) && !AllAligned(INIT, Mistaken())
    ensures Received(INIT, UNKNOWN, Mistaken(), "a") == ["m"] && AskedAfter(UNKNOWN, Mistaken(), "a").expected == []
    ensures Received(INIT, UNKNOWN, Mistaken(), "f") == [] && AskedAfter(UNKNOWN, Mistaken(), "f").expected == ["m"]
  {
    MistakenViews(0);
    MistakenViews(5);
    hide *;
    assert NAMES[0] == "a" && NAMES[5] == "f";
    DeliveredWhileHeld(Mistaken(), "a");
    DeliveredWhileHeld(Mistaken(), "f");
    if AllAligned(INIT, Mistaken()) { ExactlyOnceInOrder(Mistaken(), "a"); }
  }

  lemma MistakenViews(i: nat)
    requires i in {0, 5}
    ensures Run(INIT, Mistaken())
    ensures HeldAfter(INIT, UNKNOWN, Mistaken(), NAMES[i])
         == View(Some(5 + i), if i == 0 then map["t" := true] else map[], if i == 0 then ["m"] else [])
    ensures AskedAfter(UNKNOWN, Mistaken(), NAMES[i])
         == View(Some(5 + i), if i == 0 then map[] else map["t" := true], if i == 0 then [] else ["m"])
  {
    hide Step, Joined, Run, After, HeldAfter, AskedAfter, Defined, Environment, Loses, Joining, Received, AllAligned;
    var e, c := Unsubscribe(5, "t"), NAMES[i];
    JoiningRun(6, i);
    WrongEntryErased();
    OneMore(INIT, Joining(6), e, UNKNOWN, c);
    OnlyUnsubscribeEnds(After(INIT, Joining(6) + [e]), Publish("t", "m"),
                        AskedAfter(UNKNOWN, Joining(6) + [e], c), c);
    OneMore(INIT, Joining(6) + [e], Publish("t", "m"), UNKNOWN, c);
    assert map["t" := true] - {"t"} == map[];
  }

  /** Subscribing again never changes the flag: line 352 writes to the loop's copy. */
  lemma ResubscribeKeepsFlag(s: State, fd: int, topic: string, sf: bool)
    requires fd in s.clients
    ensures FlagOf(Entries(Step(s, Subscribe(fd, topic, sf)).0, topic), s.clients[fd])
         == if FlagOf(Entries(s, topic), s.clients[fd]).Some?
            then FlagOf(Entries(s, topic), s.clients[fd]) else Some(sf)
  {
    PositionOfAppend(Entries(s, topic), Entry(s.clients[fd], sf), s.clients[fd]);
  }
}
