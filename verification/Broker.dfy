/** The publish/subscribe server: the three maps its event loop updates, the bytes it sends,
    and what each client is owed.  One event is one ready socket of the select loop. */
module Broker {
  /** A vector element of topics: only the ID and the store-and-forward flag are used. */
  datatype Entry = Entry(clientID: string, sf: bool)

  datatype Subscriber = Subscriber(connected: bool, fd: int, packets: seq<string>)

  datatype Send = Send(fd: int, text: string)

  datatype State = State(
    clients: map<int, string>,
    topics: map<string, seq<Entry>>,
    subscribers: map<string, Subscriber>,
    readFds: set<int>)

  datatype Event =
    | Publish(topic: string, text: string)
    | Accept(newFd: int, id: string)
    | Eof(fd: int)
    | Subscribe(fd: int, topic: string, sf: bool)
    | Unsubscribe(fd: int, topic: string)

  const ID_EXISTS := ";ID_EXISTS;\n"
  const INIT := State(map[], map[], map[], {})

  // ---- One event ----------------------------------------------------------------------------

  function SendAll(fd: int, packets: seq<string>): (outs: seq<Send>)
    ensures |outs| == |packets| && forall i :: 0 <= i < |outs| ==> outs[i] == Send(fd, packets[i])
  {
    seq(|packets|, i requires 0 <= i < |packets| => Send(fd, packets[i]))
  }

  /** One pass of the loop over the subscribers of a topic. */
  function DeliverOne(subs: map<string, Subscriber>, e: Entry, text: string)
    : (r: (map<string, Subscriber>, seq<Send>))
  {
    if e.clientID !in subs then (subs, [])
    else
      var sub := subs[e.clientID];
      if sub.connected then (subs, [Send(sub.fd, text)])
      else if e.sf then (subs[e.clientID := sub.(packets := sub.packets + [text])], [])
      else (subs, [])
  }

  function Deliver(subs: map<string, Subscriber>, entries: seq<Entry>, text: string)
    : (r: (map<string, Subscriber>, seq<Send>))
  {
    if |entries| == 0 then (subs, [])
    else
      var first := DeliverOne(subs, entries[0], text);
      var rest := Deliver(first.0, entries[1..], text);
      (rest.0, first.1 + rest.1)
  }

  /** The index of the first entry of id, |entries| if there is none. */
  function Position(entries: seq<Entry>, id: string): (j: nat)
    ensures j <= |entries|
    ensures j < |entries| ==> entries[j].clientID == id
    ensures forall k :: 0 <= k < j ==> entries[k].clientID != id
  {
    if |entries| == 0 || entries[0].clientID == id then 0 else 1 + Position(entries[1..], id)
  }

  function Entries(s: State, topic: string): (entries: seq<Entry>) {
    if topic in s.topics then s.topics[topic] else []
  }

  /** The unsubscribing client has an entry, so the loop reaches the erase of line 322. */
  predicate Erases(s: State, fd: int, topic: string) {
    fd in s.clients && Position(Entries(s, topic), s.clients[fd]) < |Entries(s, topic)|
  }

  /** erase(begin() + i) with the descriptor as index is undefined beyond the vector. */
  predicate Defined(s: State, e: Event) {
    e.Unsubscribe? && Erases(s, e.fd, e.topic) ==> 0 <= e.fd < |Entries(s, e.topic)|
  }

  function Step(s: State, e: Event): (r: (State, seq<Send>))
    requires Defined(s, e)
  {
    match e
    case Publish(topic, text) =>
      var d := Deliver(s.subscribers, Entries(s, topic), text);
      (s.(subscribers := d.0), d.1)
    case Accept(newFd, id) =>
      var s1 := s.(readFds := s.readFds + {newFd});
      if id in s.subscribers && s.subscribers[id].connected then
        (s1, [Send(newFd, ID_EXISTS)])
      else
        var packets := if id in s.subscribers then s.subscribers[id].packets else [];
        (s1.(clients := s.clients[newFd := id],
             subscribers := s.subscribers[id := Subscriber(true, newFd, [])]),
         SendAll(newFd, packets))
    case Eof(fd) =>
      if fd in s.clients && s.clients[fd] != "" then
        var id := s.clients[fd];
        (s.(clients := s.clients - {fd}, readFds := s.readFds - {fd},
            subscribers := if id in s.subscribers
                           then s.subscribers[id := s.subscribers[id].(connected := false)]
                           else s.subscribers),
         [])
      else
        (s.(clients := s.clients[fd := ""]), [])
    case Subscribe(fd, topic, sf) =>
      if fd in s.clients && Position(Entries(s, topic), s.clients[fd]) == |Entries(s, topic)| then
        (s.(topics := s.topics[topic := Entries(s, topic) + [Entry(s.clients[fd], sf)]]), [])
      else
        (s, [])
    case Unsubscribe(fd, topic) =>
      if Erases(s, fd, topic) then
        var entries := Entries(s, topic);
        (s.(topics := s.topics[topic := entries[..fd] + entries[fd + 1..]]), [])
      else
        (s, [])
  }

  // ---- The server as the source has it: three global maps updated in place --------------------

  class Server {
    var clientsConnected: map<int, string>
    var topics: map<string, seq<Entry>>
    var subscribers: map<string, Subscriber>
    var readFds: set<int>
    var wire: seq<Send>

    ghost function Now(): (s: State)
      reads this
    {
      State(clientsConnected, topics, subscribers, readFds)
    }

    constructor ()
      ensures Now() == INIT && wire == []
    {
      clientsConnected, topics, subscribers, readFds, wire := map[], map[], map[], {}, [];
    }

    method OnDatagram(topic: string, text: string)
      modifies this
      ensures Now() == Step(old(Now()), Publish(topic, text)).0
      ensures wire == old(wire) + Step(old(Now()), Publish(topic, text)).1
    {
      if topic !in topics { return; }
      var entries := topics[topic];
      var j := 0;
      ghost var whole := Deliver(subscribers, entries, text);
      assert entries[0..] == entries;
      while j < |entries|
        invariant j <= |entries|
        invariant clientsConnected == old(clientsConnected) && topics == old(topics) && readFds == old(readFds)
        invariant Deliver(subscribers, entries[j..], text).0 == whole.0
        invariant wire + Deliver(subscribers, entries[j..], text).1 == old(wire) + whole.1
      {
        assert entries[j..][1..] == entries[j + 1..];
        var e := entries[j];
        ghost var before := subscribers;
        if e.clientID in subscribers {
          var sub := subscribers[e.clientID];
          if !sub.connected && e.sf {
            subscribers := subscribers[e.clientID := sub.(packets := sub.packets + [text])];
          }
          if sub.connected {
            wire := wire + [Send(sub.fd, text)];
          }
        }
        assert subscribers == DeliverOne(before, e, text).0;
        j := j + 1;
      }
    }

    method OnConnection(newFd: int, id: string)
      modifies this
      ensures Now() == Step(old(Now()), Accept(newFd, id)).0
      ensures wire == old(wire) + Step(old(Now()), Accept(newFd, id)).1
    {
      readFds := readFds + {newFd};
      if id in subscribers && subscribers[id].connected {
        wire := wire + [Send(newFd, ID_EXISTS)];
        return;
      }
      clientsConnected := clientsConnected[newFd := id];
      if id in subscribers {
        subscribers := subscribers[id := subscribers[id].(connected := true, fd := newFd)];
      } else {
        subscribers := subscribers[id := Subscriber(true, newFd, [])];
      }
      var packets := subscribers[id].packets;
      var j := 0;
      while j < |packets|
        invariant j <= |packets|
        invariant wire == old(wire) + SendAll(newFd, packets)[..j]
        modifies this`wire
      {
        wire := wire + [Send(newFd, packets[j])];
        j := j + 1;
      }
      subscribers := subscribers[id := subscribers[id].(packets := [])];
    }

    method OnEof(fd: int)
      modifies this
      ensures Now() == Step(old(Now()), Eof(fd)).0 && wire == old(wire)
    {
      if fd !in clientsConnected {
        clientsConnected := clientsConnected[fd := ""];
      }
      var id := clientsConnected[fd];
      if |id| != 0 {
        if id in subscribers {
          subscribers := subscribers[id := subscribers[id].(connected := false)];
        }
        clientsConnected := clientsConnected - {fd};
        readFds := readFds - {fd};
      } else {
        assert clientsConnected == old(clientsConnected)[fd := ""];
      }
    }

    method OnSubscribe(fd: int, topic: string, sf: bool)
      modifies this
      ensures Now() == Step(old(Now()), Subscribe(fd, topic, sf)).0 && wire == old(wire)
    {
      if fd !in clientsConnected { return; }
      var id := clientsConnected[fd];
      if topic in topics {
        var entries, found, j := topics[topic], false, 0;
        while j < |entries| && !found
          invariant j <= |entries| && (!found ==> forall k :: 0 <= k < j ==> entries[k].clientID != id)
          invariant found ==> exists k :: 0 <= k < |entries| && entries[k].clientID == id
          decreases |entries| - j
        {
          // The flag is assigned to the loop's own copy of the entry.
          var copy := entries[j];
          if copy.clientID == id {
            copy := copy.(sf := sf);
            found := true;
          }
          j := j + 1;
        }
        if !found {
          topics := topics[topic := entries + [Entry(id, sf)]];
        }
      } else {
        assert [] + [Entry(id, sf)] == [Entry(id, sf)];
        topics := topics[topic := [Entry(id, sf)]];
      }
    }

    method OnUnsubscribe(fd: int, topic: string)
      requires Defined(Now(), Unsubscribe(fd, topic))
      modifies this
      ensures Now() == Step(old(Now()), Unsubscribe(fd, topic)).0 && wire == old(wire)
    {
      if topic !in topics || fd !in clientsConnected { return; }
      var entries, id, j := topics[topic], clientsConnected[fd], 0;
      while j < |entries|
        invariant j <= |entries| && forall k :: 0 <= k < j ==> entries[k].clientID != id
        invariant Now() == old(Now()) && wire == old(wire)
      {
        if id == entries[j].clientID {
          topics := topics[topic := entries[..fd] + entries[fd + 1..]];
          break;
        }
        j := j + 1;
      }
    }
  }
}
