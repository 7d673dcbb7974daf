/** Which descriptors are open, whose they are, and what the ones that are nobody's are sent: as
    the events alone say. */
module Descriptors {
  import opened Wrappers
  import opened Broker
  import opened Delivery

  /** The descriptor a client is connected on. */
  function ConnectedOn(es: seq<Event>, id: string): (fd: Option<int>) {
    if |es| == 0 then None
    else
      var prior, e := ConnectedOn(es[..|es| - 1], id), es[|es| - 1];
      match e
      case Accept(newFd, i) => if i == id && prior.None? then Some(newFd) else prior
      case Eof(fd) => if prior == Some(fd) then None else prior
      case _ => prior
  }

  /** Not open; a client's; or that of a rejected connection, which is never closed. */
  datatype Fate = Closed | Client(id: string) | Stranger(ended: bool)

  function FateOf(es: seq<Event>, fd: int): (fate: Fate) {
    if |es| == 0 then Closed
    else
      var before, e := es[..|es| - 1], es[|es| - 1];
      var prior := FateOf(before, fd);
      match e
      case Accept(newFd, id) =>
        if newFd != fd then prior else if ConnectedOn(before, id).None? then Client(id) else Stranger(false)
      case Eof(f) => if f != fd || prior.Closed? then prior else if prior.Client? then Closed else Stranger(true)
      case _ => prior
  }

  /** Client IDs are not empty. */
  predicate Named(es: seq<Event>) {
    forall i :: 0 <= i < |es| ==> es[i].Accept? ==> es[i].id != ""
  }

  /** The maps say what the fate says. */
  ghost predicate Fits(s: State, fd: int, fate: Fate) {
    match fate
    case Closed => fd !in s.readFds && fd !in s.clients
    case Client(id) => id != "" && fd in s.readFds && fd in s.clients && s.clients[fd] == id
    case Stranger(ended) =>
      fd in s.readFds && if ended then fd in s.clients && s.clients[fd] == "" else fd !in s.clients
  }

  // ---- One event -----------------------------------------------------------------------------------

  lemma StepConnection(s: State, e: Event, id: string)
    requires Consistent(s) && Environment(s, e) && Defined(s, e) && id != ""
    ensures var was := Connection(s.subscribers, id);
      Connection(Step(s, e).0.subscribers, id) ==
        match e
        case Accept(newFd, i) => if i == id && was.None? then Some(newFd) else was
        case Eof(fd) => if was == Some(fd) then None else was
        case _ => was
  {
    hide Deliver, DistinctIds;
    if e.Publish? { DeliverKeepsConnections(s.subscribers, Entries(s, e.topic), e.text); }
  }

  /** Nobody is connected under the empty ID. */
  lemma StepNameless(s: State, e: Event)
    requires Environment(s, e) && Defined(s, e) && (e.Accept? ==> e.id != "")
    requires Connection(s.subscribers, "").None?
    ensures Connection(Step(s, e).0.subscribers, "").None?
  {
    hide Deliver;
    if e.Publish? { DeliverKeepsConnections(s.subscribers, Entries(s, e.topic), e.text); }
  }

  lemma StepFate(s: State, e: Event, fd: int, fate: Fate)
    requires Consistent(s) && Environment(s, e) && Defined(s, e) && Fits(s, fd, fate)
    requires e.Accept? ==> e.id != ""
    ensures Fits(Step(s, e).0, fd,
      match e
      case Accept(newFd, id) =>
        if newFd != fd then fate
        else if Connection(s.subscribers, id).None? then Client(id) else Stranger(false)
      case Eof(f) => if f != fd || fate.Closed? then fate else if fate.Client? then Closed else Stranger(true)
      case _ => fate)
  {
    hide Deliver, DistinctIds;
  }

  /** What one event sends to a descriptor that is no client's afterwards. */
  lemma StepToStranger(s: State, e: Event, fd: int)
    requires Consistent(s) && Environment(s, e) && Defined(s, e)
    requires forall id :: Connection(Step(s, e).0.subscribers, id) != Some(fd)
    ensures TextsTo(Step(s, e).1, Some(fd)) == if e.Accept? && e.newFd == fd then [ID_EXISTS] else []
  {
    match e
    case Publish(topic, text) =>
      hide DistinctIds;
      DeliverKeepsConnections(s.subscribers, Entries(s, topic), text);
      forall id ensures Connection(s.subscribers, id) != Some(fd) {
        assert Connection(Step(s, e).0.subscribers, id) == Connection(s.subscribers, id);
      }
      DeliverOnlyToClients(s.subscribers, Entries(s, topic), text, fd);
    case Accept(newFd, id) =>
      hide DistinctIds;
      if Connection(s.subscribers, id).None? {
        assert Connection(Step(s, e).0.subscribers, id) == Some(newFd);
        NothingForOthers(Step(s, e).1, Some(fd));
      }
    case _ =>
  }

  lemma {:induction false} DeliverOnlyToClients(subs: map<string, Subscriber>, entries: seq<Entry>,
                                                text: string, fd: int)
    requires forall id :: Connection(subs, id) != Some(fd)
    ensures TextsTo(Deliver(subs, entries, text).1, Some(fd)) == []
    decreases |entries|
  {
    if |entries| > 0 {
      var first := DeliverOne(subs, entries[0], text);
      assert Connection(subs, entries[0].clientID) != Some(fd);
      forall id ensures Connection(first.0, id) != Some(fd) {
        assert Connection(subs, id) != Some(fd);
      }
      DeliverOnlyToClients(first.0, entries[1..], text, fd);
      TextsToAppend(first.1, Deliver(first.0, entries[1..], text).1, Some(fd));
    }
  }

  // ---- All runs --------------------------------------------------------------------------------------

  lemma {:induction false} LastEvent(s: State, es: seq<Event>)
    requires Run(s, es) && |es| > 0
    ensures var prior := es[..|es| - 1];
      && Run(s, prior) && Environment(After(s, prior), es[|es| - 1]) && Defined(After(s, prior), es[|es| - 1])
      && After(s, es) == Step(After(s, prior), es[|es| - 1]).0
    decreases |es|
  {
    hide Step, Environment, Defined;
    var prior := es[..|es| - 1];
    if |es| == 1 {
      assert prior == [] && es[1..] == [];
    } else {
      LastEvent(Step(s, es[0]).0, es[1..]);
      assert prior[1..] == es[1..][..|es| - 2] && prior[0] == es[0] && es[1..][|es| - 2] == es[|es| - 1];
    }
  }

  lemma {:induction false} FatesHold(es: seq<Event>, fd: int, id: string)
    requires Run(INIT, es) && Named(es) && id != ""
    ensures var s := After(INIT, es);
      Consistent(s) && Fits(s, fd, FateOf(es, fd)) && Connection(s.subscribers, id) == ConnectedOn(es, id)
    decreases |es|
  {
    if |es| > 0 {
      hide Run, After, Step, Environment, Defined, Fits, Consistent, Connection;
      var prior, e := es[..|es| - 1], es[|es| - 1];
      LastEvent(INIT, es);
      var s := After(INIT, prior);
      FatesHold(prior, fd, id);
      if e.Accept? { FatesHold(prior, fd, e.id); }
      StepConnection(s, e, id);
      StepFate(s, e, fd, FateOf(prior, fd));
      StepKeepsConsistent(s, e);
    }
  }

  lemma {:induction false} NobodyNameless(es: seq<Event>)
    requires Run(INIT, es) && Named(es)
    ensures Connection(After(INIT, es).subscribers, "").None?
    decreases |es|
  {
    if |es| > 0 {
      hide Run, After, Step, Environment, Defined, Connection;
      LastEvent(INIT, es);
      NobodyNameless(es[..|es| - 1]);
      StepNameless(After(INIT, es[..|es| - 1]), es[|es| - 1]);
    }
  }

  /** In every run the server watches exactly the open descriptors, and knows each client's; a
      rejected connection stays open and is known under no name, from its end of file on under the
      empty one. */
  lemma OpenDescriptors(es: seq<Event>, fd: int)
    requires Run(INIT, es) && Named(es)
    ensures var s, fate := After(INIT, es), FateOf(es, fd);
      && (fd in s.readFds <==> !fate.Closed?)
      && (fd in s.clients <==> fate.Client? || fate == Stranger(true))
      && (fd in s.clients ==> s.clients[fd] == if fate.Client? then fate.id else "")
      && (fate.Client? ==> ConnectedOn(es, fate.id) == Some(fd))
  {
    var s, fate := After(INIT, es), FateOf(es, fd);
    FatesHold(es, fd, if fate.Client? && fate.id != "" then fate.id else "x");
    hide Run, After;
  }

  /** In every run the last event sends a descriptor that is no client's nothing, but for the
      answer to a connection under an ID that is connected already. */
  lemma StrangersAreToldOnce(es: seq<Event>, fd: int)
    requires Run(INIT, es) && Named(es) && |es| > 0 && !FateOf(es, fd).Client?
    ensures Run(INIT, es[..|es| - 1]) && Defined(After(INIT, es[..|es| - 1]), es[|es| - 1])
    ensures TextsTo(Step(After(INIT, es[..|es| - 1]), es[|es| - 1]).1, Some(fd))
         == if es[|es| - 1].Accept? && es[|es| - 1].newFd == fd then [ID_EXISTS] else []
  {
    var prior, e := es[..|es| - 1], es[|es| - 1];
    LastEvent(INIT, es);
    FatesHold(prior, fd, "x");
    FatesHold(es, fd, "x");
    NobodyNameless(es);
    var s, s' := After(INIT, prior), After(INIT, es);
    hide Run, After, Step, Environment, Defined;
    forall id ensures Connection(s'.subscribers, id) != Some(fd) {
      NotAClient(s', fd, FateOf(es, fd), id);
    }
    StepToStranger(s, e, fd);
  }

  lemma NotAClient(s: State, fd: int, fate: Fate, id: string)
    requires Consistent(s) && Fits(s, fd, fate) && !fate.Client?
    requires id == "" ==> Connection(s.subscribers, id).None?
    ensures Connection(s.subscribers, id) != Some(fd)
  {
  }
}
