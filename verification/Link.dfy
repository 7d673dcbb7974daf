/** The link emulator: a forwarding thread and a scheduler thread, interleaved one step at a
    time.  Each section between lock and unlock is one step.  The queues are FIFO sequences
    (see Queues); index 0 is the entry that leaves next. */
module Link {
  datatype Msg = Msg(len: int, payload: seq<int>)

  /** serialization_delay and delay, as set from the command line. */
  datatype Config = Config(serialization: nat, delay: nat)

  /** Both delays zero, as a speed above 22400 without a delay makes them. */
  predicate Instant(c: Config) {
    c.serialization == 0 && c.delay == 0
  }

  const BUFFER_SIZE := 1000

  /** dispatched is the clock reading of the iteration that took the message from the buffer. */
  datatype Flight = Flight(m: Msg, finish: int, dispatched: int)
  datatype Sent = Sent(m: Msg, dispatched: int, at: int)

  datatype Producer =
    | Receiving
    | Checking(m: Msg)
    | Deciding(m: Msg, overflow: bool)
    | Enqueueing(m: Msg)

  datatype Scheduler =
    | ReadingClock
    | Draining
    | CheckingBuffer
    | Admitting
    | Taking
    | Launching(held: Msg)
    | ComputingWaits
    | Sleeping(wait: int)
    | Asserting
    | Blocked(signalled: bool)
    | Aborted

  /** accepted lists every message enqueued so far; seenAtCheck is how many there were at the
      last look at the buffer size and sizeAtCheck the size it showed.  They record history and
      nothing reads them. */
  datatype State = State(
    buffer: seq<Msg>,
    producer: Producer,
    scheduler: Scheduler,
    inFlight: seq<Flight>,
    idleTime: int,
    crtTime: int,
    stuff: bool,
    sent: seq<Sent>,
    accepted: seq<Msg>,
    seenAtCheck: nat,
    sizeAtCheck: nat)

  /** What is not decided by the two programs: arrivals, the clock, the loss and corruption
      dice, and when a sleeping or blocked scheduler goes on. */
  datatype Label =
    | Receive(m: Msg)
    | Produce(lost: bool, forwarded: Msg)
    | Clock(now: int)
    | Schedule

  const INIT := State([], Receiving, ReadingClock, [], 0, 0, false, [], [], 0, 0)

  /** A message as received, or with one byte of its payload corrupted. */
  predicate MayBecome(m: Msg, m': Msg) {
    && m'.len == m.len && |m'.payload| == |m.payload|
    && (m' == m || exists k :: 0 <= k < |m.payload| && k < m.len && m'.payload == m.payload[k := m'.payload[k]])
  }

  predicate Enabled(s: State, l: Label) {
    match l
    case Receive(_) => s.producer.Receiving?
    case Produce(_, forwarded) =>
      !s.producer.Receiving? && (s.producer.Deciding? ==> MayBecome(s.producer.m, forwarded))
    case Clock(_) => s.scheduler.ReadingClock?
    case Schedule => !s.scheduler.ReadingClock? && !s.scheduler.Aborted?
  }

  // ---- The steps ----------------------------------------------------------------------------

  function ProducerStep(s: State, lost: bool, forwarded: Msg): (s': State)
    requires !s.producer.Receiving?
  {
    match s.producer
    case Checking(m) =>
      s.(producer := Deciding(m, |s.buffer| >= BUFFER_SIZE))
    case Deciding(m, overflow) =>
      s.(producer := if overflow || lost then Receiving else Enqueueing(forwarded))
    case Enqueueing(m) =>
      s.(producer := Receiving,
         buffer := s.buffer + [m],
         accepted := s.accepted + [m],
         scheduler := if s.scheduler.Blocked? then Blocked(true) else s.scheduler)
  }

  function WaitIdle(s: State): (w: int) { s.idleTime - s.crtTime }

  function WaitSend(s: State): (w: int) {
    if |s.inFlight| > 0 then s.inFlight[0].finish - s.crtTime else 0
  }

  function SleepTime(idle: int, send: int): (w: int) {
    var w := if idle > 0 then idle else 0;
    if send > 0 && send < w then send else w
  }

  /** A blocked scheduler may also wake without a signal. */
  function SchedulerStep(c: Config, s: State): (s': State)
    requires !s.scheduler.ReadingClock? && !s.scheduler.Aborted?
    requires s.scheduler.Taking? ==> |s.buffer| > 0
  {
    match s.scheduler
    case Draining =>
      if |s.inFlight| > 0 && s.crtTime >= s.inFlight[0].finish then
        var f := s.inFlight[0];
        s.(inFlight := s.inFlight[1..], sent := s.sent + [Sent(f.m, f.dispatched, s.crtTime)])
      else
        s.(scheduler := CheckingBuffer)
    case CheckingBuffer =>
      s.(stuff := |s.buffer| > 0, seenAtCheck := |s.accepted|, sizeAtCheck := |s.buffer|,
         scheduler := Admitting)
    case Admitting =>
      if s.stuff && s.crtTime >= s.idleTime
      then s.(idleTime := s.crtTime + c.serialization, scheduler := Taking)
      else s.(scheduler := ComputingWaits)
    case Taking =>
      s.(buffer := s.buffer[1..], scheduler := Launching(s.buffer[0]))
    case Launching(held) =>
      s.(inFlight := s.inFlight + [Flight(held, s.crtTime + c.serialization + c.delay, s.crtTime)],
         scheduler := ComputingWaits)
    case ComputingWaits =>
      if WaitIdle(s) > 0 || WaitSend(s) > 0
      then s.(scheduler := Sleeping(SleepTime(WaitIdle(s), WaitSend(s))))
      else s.(scheduler := Asserting)
    case Sleeping(_) =>
      s.(scheduler := ReadingClock)
    case Asserting =>
      s.(scheduler := if |s.buffer| > 0 then Aborted else Blocked(false))
    case Blocked(_) =>
      s.(scheduler := ReadingClock)
  }

  /** The dequeue of line 239 finds the buffer empty: mif->m would be null. */
  predicate NullDequeue(s: State) {
    s.scheduler.Taking? && |s.buffer| == 0
  }

  function Next(c: Config, s: State, l: Label): (s': State)
    requires Enabled(s, l) && !NullDequeue(s)
  {
    match l
    case Receive(m) => s.(producer := Checking(m))
    case Produce(lost, forwarded) => ProducerStep(s, lost, forwarded)
    case Clock(now) => s.(crtTime := now, scheduler := Draining)
    case Schedule => SchedulerStep(c, s)
  }

  /** ls is an interleaving both threads can take from s; it ends early at a null dequeue. */
  predicate Run(c: Config, s: State, ls: seq<Label>)
    decreases |ls|
  {
    |ls| == 0 || (Enabled(s, ls[0]) && (NullDequeue(s) || Run(c, Next(c, s, ls[0]), ls[1..])))
  }

  function After(c: Config, s: State, ls: seq<Label>): (s': State)
    requires Run(c, s, ls)
    decreases |ls|
  {
    if |ls| == 0 || NullDequeue(s) then s else After(c, Next(c, s, ls[0]), ls[1..])
  }

  // ---- Invariants ---------------------------------------------------------------------------

  function FlightMsgs(fs: seq<Flight>): (ms: seq<Msg>) {
    seq(|fs|, i requires 0 <= i < |fs| => fs[i].m)
  }

  function SentMsgs(ss: seq<Sent>): (ms: seq<Msg>) {
    seq(|ss|, i requires 0 <= i < |ss| => ss[i].m)
  }

  function Held(s: State): (ms: seq<Msg>) {
    if s.scheduler.Launching? then [s.scheduler.held] else []
  }

  /** Nothing lost, nothing doubled, nothing overtaken. */
  ghost predicate Conserved(s: State) {
    SentMsgs(s.sent) + FlightMsgs(s.inFlight) + Held(s) + s.buffer == s.accepted
  }

  /** The capacity check is still good when the message is enqueued. */
  ghost predicate Bounded(s: State) {
    && |s.buffer| <= BUFFER_SIZE
    && (s.producer.Enqueueing? || (s.producer.Deciding? && !s.producer.overflow) ==>
          |s.buffer| < BUFFER_SIZE)
  }

  /** Messages accepted since the last look at the buffer. */
  function Arrived(s: State): (n: int) {
    |s.accepted| - s.seenAtCheck
  }

  /** What the look at the buffer is still worth: the buffer is what it showed, less the message
      taken, plus what arrived.  A message was taken if there was one and the link was idle. */
  ghost predicate LookHolds(s: State) {
    && Arrived(s) >= 0
    && (s.stuff <==> s.sizeAtCheck > 0)
    && (s.scheduler.Taking? || s.scheduler.Launching? ==> s.stuff)
    && (s.scheduler.Admitting? || s.scheduler.Taking? ==> |s.buffer| == s.sizeAtCheck + Arrived(s))
    && (s.scheduler.Launching? ==> |s.buffer| == s.sizeAtCheck - 1 + Arrived(s))
    && ((s.scheduler.ComputingWaits? && (!s.stuff || s.idleTime <= s.crtTime)) || s.scheduler.Asserting? ==>
          |s.buffer| == (if s.stuff then s.sizeAtCheck - 1 else 0) + Arrived(s))
  }

  /** Between two entries in flight there is at least the serialization delay. */
  ghost predicate Spaced(c: Config, fs: seq<Flight>) {
    forall i, j :: 0 <= i < j < |fs| ==> fs[i].finish + c.serialization <= fs[j].finish
  }

  /** Entries due at the clock reading of this iteration have left. */
  predicate Drained(s: State) {
    !s.scheduler.ReadingClock? && !s.scheduler.Draining? && !s.scheduler.Sleeping? && !s.scheduler.Blocked?
  }

  /** Every message takes the serialization delay and the propagation delay, at least. */
  ghost predicate Delayed(c: Config, s: State) {
    && (forall i :: 0 <= i < |s.inFlight| ==>
          s.inFlight[i].finish == s.inFlight[i].dispatched + c.serialization + c.delay)
    && (forall i :: 0 <= i < |s.sent| ==>
          s.sent[i].at >= s.sent[i].dispatched + c.serialization + c.delay)
  }

  /** No finish time in flight lies further ahead than the link is taken plus the delay. */
  ghost predicate Ceiling(c: Config, s: State) {
    && (|s.inFlight| > 0 ==>
          s.inFlight[|s.inFlight| - 1].finish
            <= (if s.scheduler.Taking? || s.scheduler.Launching? then s.crtTime else s.idleTime) + c.delay)
    && (s.scheduler.Taking? || s.scheduler.Launching? ==> s.idleTime == s.crtTime + c.serialization)
  }

  /** The head in flight is due at once because both delays are zero and it was launched in this
      iteration. */
  predicate LaunchedInstantly(c: Config, s: State)
    requires |s.inFlight| > 0
  {
    && Instant(c) && s.stuff && s.inFlight[0].finish == s.crtTime == s.idleTime
    && (s.scheduler.ComputingWaits? || s.scheduler.Asserting? || s.scheduler.Aborted?)
  }

  /** Where the finish times in flight lie against each other and against the clock reading. */
  ghost predicate Window(c: Config, s: State) {
    && (|s.inFlight| > 0 ==>
          var first, last := s.inFlight[0].finish, s.inFlight[|s.inFlight| - 1].finish;
          && first <= last
          && (!Instant(c) ==> last < first + c.serialization + c.delay)
          && (Drained(s) ==> s.crtTime < first || LaunchedInstantly(c, s)))
    && (Instant(c) ==> |s.inFlight| <= 1)
  }

  ghost predicate Timed(c: Config, s: State) {
    Spaced(c, s.inFlight) && Delayed(c, s) && Ceiling(c, s) && Window(c, s)
  }

  /** The first moment at which something can happen: a message may be taken or is due.  Once a
      message may be taken the scheduler polls. */
  function WakeTime(s: State): (t: int) {
    if s.idleTime <= s.crtTime then s.crtTime
    else if |s.inFlight| > 0 && s.inFlight[0].finish < s.idleTime then s.inFlight[0].finish
    else s.idleTime
  }

  /** Both delays are zero and there was something to take in this iteration. */
  predicate TakenInstantly(c: Config, s: State) {
    Instant(c) && s.sizeAtCheck > 0
  }

  /** When the scheduler stops: never past the next due time, and blocked with nothing unannounced
      in the buffer and nothing in flight but a message that took no time. */
  ghost predicate WaitsRight(c: Config, s: State) {
    && (s.scheduler.ComputingWaits? && s.stuff ==> s.idleTime > s.crtTime || |s.inFlight| > 0)
    && (s.scheduler.Asserting? ==> (s.stuff ==> Instant(c)))
    && (s.scheduler.Sleeping? ==> s.crtTime + s.scheduler.wait == WakeTime(s))
    && (s.scheduler.Sleeping? && |s.inFlight| > 0 ==> WakeTime(s) <= s.inFlight[0].finish)
    && (s.scheduler.Asserting? || s.scheduler.Blocked? || s.scheduler.Aborted? ==>
          |s.inFlight| == if TakenInstantly(c, s) then 1 else 0)
    && (s.scheduler.Blocked? && !s.scheduler.signalled ==> s.buffer == [])
    && (s.scheduler.Aborted? ==> Overtaken(c, s))
  }

  /** What makes the assertion of line 272 fail: a message arrived since the look at the buffer,
      or one of several was taken and there is nothing to wait for. */
  predicate Overtaken(c: Config, s: State) {
    Arrived(s) > 0 || (Instant(c) && s.sizeAtCheck >= 2)
  }

  ghost predicate Inv(c: Config, s: State) {
    Conserved(s) && Bounded(s) && LookHolds(s) && Timed(c, s) && WaitsRight(c, s)
  }

  // ---- One step keeps them --------------------------------------------------------------------

  lemma MsgsAppend(fs: seq<Flight>, f: Flight, ss: seq<Sent>, t: Sent)
    ensures FlightMsgs(fs + [f]) == FlightMsgs(fs) + [f.m] && FlightMsgs([f] + fs) == [f.m] + FlightMsgs(fs)
    ensures SentMsgs(ss + [t]) == SentMsgs(ss) + [t.m]
  {
  }

  lemma ProducerConserves(s: State, lost: bool, forwarded: Msg)
    requires Conserved(s) && !s.producer.Receiving?
    ensures Conserved(ProducerStep(s, lost, forwarded))
  {
    hide SentMsgs, FlightMsgs;
    if s.producer.Enqueueing? {
      var rest := SentMsgs(s.sent) + FlightMsgs(s.inFlight) + Held(s);
      assert rest + (s.buffer + [s.producer.m]) == (rest + s.buffer) + [s.producer.m];
    }
  }

  lemma SendConserves(c: Config, s: State)
    requires Conserved(s) && s.scheduler.Draining?
    ensures Conserved(SchedulerStep(c, s))
  {
    hide SentMsgs, FlightMsgs;
    if |s.inFlight| > 0 && s.crtTime >= s.inFlight[0].finish {
      var f, rest, sent := s.inFlight[0], s.inFlight[1..], SentMsgs(s.sent);
      assert s.inFlight == [f] + rest;
      MsgsAppend(rest, f, s.sent, Sent(f.m, f.dispatched, s.crtTime));
      assert sent + ([f.m] + FlightMsgs(rest)) == (sent + [f.m]) + FlightMsgs(rest);
    }
  }

  lemma TakeConserves(c: Config, s: State)
    requires Conserved(s) && s.scheduler.Taking? && |s.buffer| > 0
    ensures Conserved(SchedulerStep(c, s))
  {
    hide SentMsgs, FlightMsgs;
    var out := SentMsgs(s.sent) + FlightMsgs(s.inFlight);
    assert s.buffer == [s.buffer[0]] + s.buffer[1..];
    assert (out + []) + ([s.buffer[0]] + s.buffer[1..]) == (out + [s.buffer[0]]) + s.buffer[1..];
  }

  lemma LaunchConserves(c: Config, s: State)
    requires Conserved(s) && s.scheduler.Launching?
    ensures Conserved(SchedulerStep(c, s))
  {
    hide SentMsgs, FlightMsgs;
    var sent, fs, m := SentMsgs(s.sent), FlightMsgs(s.inFlight), s.scheduler.held;
    MsgsAppend(s.inFlight, Flight(m, s.crtTime + c.serialization + c.delay, s.crtTime), [], Sent(m, 0, 0));
    assert (sent + fs) + [m] == (sent + (fs + [m])) + [];
  }

  lemma SchedulerConserves(c: Config, s: State)
    requires Conserved(s) && Enabled(s, Schedule) && !NullDequeue(s)
    ensures Conserved(SchedulerStep(c, s))
  {
    if s.scheduler.Draining? {
      SendConserves(c, s);
    } else if s.scheduler.Taking? {
      TakeConserves(c, s);
    } else if s.scheduler.Launching? {
      LaunchConserves(c, s);
    } else {
      hide SentMsgs, FlightMsgs;
    }
  }

  lemma NextConserves(c: Config, s: State, l: Label)
    requires Conserved(s) && Enabled(s, l) && !NullDequeue(s)
    ensures Conserved(Next(c, s, l))
  {
    match l
    case Receive(_) =>
    case Clock(_) =>
    case Produce(lost, forwarded) => ProducerConserves(s, lost, forwarded);
    case Schedule => SchedulerConserves(c, s);
  }

  lemma NextBounded(c: Config, s: State, l: Label)
    requires Bounded(s) && LookHolds(s) && Enabled(s, l) && !NullDequeue(s)
    ensures Bounded(Next(c, s, l)) && LookHolds(Next(c, s, l))
  {
    NextKeepsLook(c, s, l);
    hide LookHolds;
  }

  lemma NextKeepsLook(c: Config, s: State, l: Label)
    requires LookHolds(s) && Enabled(s, l) && !NullDequeue(s)
    ensures LookHolds(Next(c, s, l))
  {
  }

  lemma NextSpaced(c: Config, s: State, l: Label)
    requires Spaced(c, s.inFlight) && Ceiling(c, s) && Enabled(s, l) && !NullDequeue(s)
    ensures Spaced(c, Next(c, s, l).inFlight)
  {
  }

  lemma NextCeiling(c: Config, s: State, l: Label)
    requires Ceiling(c, s) && Enabled(s, l) && !NullDequeue(s)
    ensures Ceiling(c, Next(c, s, l))
  {
  }

  lemma NextDelayed(c: Config, s: State, l: Label)
    requires Delayed(c, s) && Enabled(s, l) && !NullDequeue(s)
    ensures Delayed(c, Next(c, s, l))
  {
  }

  lemma SendKeepsWindow(c: Config, s: State)
    requires Spaced(c, s.inFlight) && Window(c, s) && s.scheduler.Draining?
    ensures Window(c, SchedulerStep(c, s))
  {
  }

  lemma LaunchKeepsWindow(c: Config, s: State)
    requires LookHolds(s) && Ceiling(c, s) && Window(c, s) && s.scheduler.Launching?
    ensures Window(c, SchedulerStep(c, s))
  {
  }

  lemma NextWindow(c: Config, s: State, l: Label)
    requires Spaced(c, s.inFlight) && LookHolds(s) && Ceiling(c, s) && Window(c, s)
    requires Enabled(s, l) && !NullDequeue(s)
    ensures Window(c, Next(c, s, l))
  {
    if l.Schedule? && s.scheduler.Draining? {
      SendKeepsWindow(c, s);
    } else if l.Schedule? && s.scheduler.Launching? {
      LaunchKeepsWindow(c, s);
    } else {
      hide Spaced;
    }
  }

  lemma ProducerKeepsWaits(c: Config, s: State, lost: bool, forwarded: Msg)
    requires LookHolds(s) && WaitsRight(c, s) && !s.producer.Receiving?
    ensures WaitsRight(c, ProducerStep(s, lost, forwarded))
  {
  }

  lemma SchedulerKeepsWaits(c: Config, s: State)
    requires LookHolds(s) && Window(c, s) && WaitsRight(c, s) && Enabled(s, Schedule) && !NullDequeue(s)
    ensures WaitsRight(c, SchedulerStep(c, s))
  {
  }

  lemma NextWaits(c: Config, s: State, l: Label)
    requires LookHolds(s) && Window(c, s) && WaitsRight(c, s) && Enabled(s, l) && !NullDequeue(s)
    ensures WaitsRight(c, Next(c, s, l))
  {
    match l
    case Produce(lost, forwarded) => ProducerKeepsWaits(c, s, lost, forwarded);
    case Schedule => SchedulerKeepsWaits(c, s);
    case Receive(_) =>
    case Clock(_) =>
  }

  // ---- All runs -------------------------------------------------------------------------------

  lemma {:induction false} RunConserves(c: Config, s: State, ls: seq<Label>)
    requires Run(c, s, ls) && Conserved(s) && Bounded(s) && LookHolds(s)
    ensures var s' := After(c, s, ls); Conserved(s') && Bounded(s') && LookHolds(s')
    decreases |ls|
  {
    if |ls| > 0 {
      NextConserves(c, s, ls[0]);
      NextBounded(c, s, ls[0]);
      RunConserves(c, Next(c, s, ls[0]), ls[1..]);
    }
  }

  lemma {:induction false} RunTimes(c: Config, s: State, ls: seq<Label>)
    requires Run(c, s, ls) && Inv(c, s)
    ensures Inv(c, After(c, s, ls))
    decreases |ls|
  {
    if |ls| > 0 {
      var l, s' := ls[0], Next(c, s, ls[0]);
      NextConserves(c, s, l);
      NextBounded(c, s, l);
      NextSpaced(c, s, l);
      NextCeiling(c, s, l);
      NextDelayed(c, s, l);
      NextWindow(c, s, l);
      NextWaits(c, s, l);
      RunTimes(c, s', ls[1..]);
    }
  }

  /** Under every interleaving: messages sent, in flight, held and buffered are, in this order,
      the messages accepted; the buffer stays within its capacity although the test and the
      enqueue are separate critical sections; and the scheduler never dequeues from an empty
      buffer. */
  lemma NothingLostOrOvertaken(c: Config, ls: seq<Label>)
    requires Run(c, INIT, ls)
    ensures var s := After(c, INIT, ls);
      && SentMsgs(s.sent) + FlightMsgs(s.inFlight) + Held(s) + s.buffer == s.accepted
      && |s.buffer| <= BUFFER_SIZE
      && !NullDequeue(s)
  {
    RunConserves(c, INIT, ls);
  }

  lemma {:induction false} SpacedMultiple(c: Config, fs: seq<Flight>)
    requires Spaced(c, fs) && |fs| > 0
    ensures (|fs| - 1) * c.serialization <= fs[|fs| - 1].finish - fs[0].finish
  {
    if |fs| > 1 {
      var front := fs[..|fs| - 1];
      SpacedMultiple(c, front);
      assert (|fs| - 1) * c.serialization == (|front| - 1) * c.serialization + c.serialization;
    }
  }

  /** With no assumption on the clock: due times are a serialization delay apart, no message
      takes less than both delays, and the number in flight is bounded by their ratio, or by one
      when both are zero. */
  lemma TimingHolds(c: Config, ls: seq<Label>)
    requires Run(c, INIT, ls)
    ensures var s := After(c, INIT, ls);
      && Spaced(c, s.inFlight) && Delayed(c, s)
      && (|s.inFlight| > 0 && !Instant(c) ==>
            (|s.inFlight| - 1) * c.serialization < c.serialization + c.delay)
      && (Instant(c) ==> |s.inFlight| <= 1)
  {
    hide *;
    InitHolds(c);
    RunTimes(c, INIT, ls);
    InvTiming(c, After(c, INIT, ls));
  }

  lemma InitHolds(c: Config)
    ensures Inv(c, INIT)
  {
  }

  lemma InvTiming(c: Config, s: State)
    requires Inv(c, s)
    ensures Spaced(c, s.inFlight) && Delayed(c, s)
    ensures |s.inFlight| > 0 && !Instant(c) ==> (|s.inFlight| - 1) * c.serialization < c.serialization + c.delay
    ensures Instant(c) ==> |s.inFlight| <= 1
  {
    hide Conserved, Bounded, LookHolds, WaitsRight, Spaced, Delayed, Ceiling, Instant;
    if |s.inFlight| > 0 { SpacedMultiple(c, s.inFlight); }
  }

  /** The scheduler sleeps until something can happen, so never past the next due time.  While it
      is blocked without a pending signal the buffer is empty; and it blocks with nothing in
      flight, except exactly when both delays are zero and it took a message in that iteration. */
  lemma WaitingIsSafe(c: Config, ls: seq<Label>)
    requires Run(c, INIT, ls)
    ensures var s := After(c, INIT, ls);
      && (s.scheduler.Sleeping? ==> s.crtTime + s.scheduler.wait == WakeTime(s))
      && (s.scheduler.Sleeping? && |s.inFlight| > 0 ==> WakeTime(s) <= s.inFlight[0].finish)
      && (s.scheduler.Blocked? ==> s.scheduler.signalled || s.buffer == [])
      && (s.scheduler.Blocked? ==> (s.inFlight == [] <==> !(Instant(c) && s.sizeAtCheck > 0)))
  {
    RunTimes(c, INIT, ls);
  }

  /** For every setting the assertion of line 272 fails exactly when a message was accepted after
      the scheduler looked at the buffer size in the same iteration, or both delays are zero and
      the look showed two messages or more. */
  lemma AssertionFailsIffOvertaken(c: Config, ls: seq<Label>)
    requires Run(c, INIT, ls)
    ensures var s := After(c, INIT, ls);
      s.scheduler.Asserting? ==>
        (SchedulerStep(c, s).scheduler.Aborted? <==>
           |s.accepted| > s.seenAtCheck || (c.serialization == 0 && c.delay == 0 && s.sizeAtCheck >= 2))
  {
    hide *;
    InitHolds(c);
    RunTimes(c, INIT, ls);
    AssertionOutcome(c, After(c, INIT, ls));
  }

  lemma AssertionOutcome(c: Config, s: State)
    requires Inv(c, s)
    ensures s.scheduler.Asserting? ==>
      (SchedulerStep(c, s).scheduler.Aborted? <==>
         |s.accepted| > s.seenAtCheck || (c.serialization == 0 && c.delay == 0 && s.sizeAtCheck >= 2))
  {
    hide Conserved, Bounded, Timed;
  }

  // ---- Runs in which things go wrong ------------------------------------------------------------

  const HELLO := Msg(1, [0])

  ghost predicate Reachable(c: Config, s: State) {
    exists ls :: Run(c, INIT, ls) && After(c, INIT, ls) == s
  }

  lemma {:induction false} OneMore(c: Config, s: State, ls: seq<Label>, l: Label)
    requires Run(c, s, ls) && !NullDequeue(After(c, s, ls)) && Enabled(After(c, s, ls), l)
    ensures Run(c, s, ls + [l]) && After(c, s, ls + [l]) == Next(c, After(c, s, ls), l)
    decreases |ls|
  {
    if |ls| == 0 {
      assert ls + [l] == [l];
      assert Run(c, Next(c, s, l), [l][1..]);
    } else {
      assert (ls + [l])[1..] == ls[1..] + [l];
      if !NullDequeue(s) {
        OneMore(c, Next(c, s, ls[0]), ls[1..], l);
      }
    }
  }

  lemma ReachNext(c: Config, s: State, l: Label)
    requires Reachable(c, s) && Enabled(s, l) && !NullDequeue(s)
    ensures Reachable(c, Next(c, s, l))
  {
    var ls :| Run(c, INIT, ls) && After(c, INIT, ls) == s;
    OneMore(c, INIT, ls, l);
  }

  lemma ReachInit(c: Config)
    ensures Reachable(c, INIT)
  {
    assert Run(c, INIT, []) && After(c, INIT, []) == INIT;
  }

  lemma ReachAsserting(c: Config)
    ensures Reachable(c, INIT.(scheduler := Asserting))
  {
    hide Reachable;
    ReachInit(c);
    ReachNext(c, INIT, Clock(0));
    ReachNext(c, INIT.(scheduler := Draining), Schedule);
    ReachNext(c, INIT.(scheduler := CheckingBuffer), Schedule);
    ReachNext(c, INIT.(scheduler := Admitting), Schedule);
    ReachNext(c, INIT.(scheduler := ComputingWaits), Schedule);
  }

  /** A message accepted between lines 221 and 271 aborts the emulator. */
  lemma AbortExample(c: Config)
    ensures Reachable(c, INIT.(scheduler := Aborted, buffer := [HELLO], accepted := [HELLO]))
  {
    hide Reachable;
    var keep, s := Produce(false, HELLO), INIT.(scheduler := Asserting);
    ReachAsserting(c);
    ReachNext(c, s, Receive(HELLO));
    ReachNext(c, s.(producer := Checking(HELLO)), keep);
    ReachNext(c, s.(producer := Deciding(HELLO, false)), keep);
    ReachNext(c, s.(producer := Enqueueing(HELLO)), keep);
    ReachNext(c, s.(buffer := [HELLO], accepted := [HELLO]), Schedule);
  }

  /** n messages handed to the buffer before the scheduler's first look, which finds them. */
  lemma ReachFilled(c: Config, n: nat)
    requires n <= BUFFER_SIZE
    ensures Reachable(c, Filled(n))
  {
    hide Reachable;
    if n == 0 {
      ReachInit(c);
      assert Filled(0) == INIT;
    } else {
      var keep, s := Produce(false, HELLO), Filled(n - 1);
      ReachFilled(c, n - 1);
      ReachNext(c, s, Receive(HELLO));
      ReachNext(c, s.(producer := Checking(HELLO)), keep);
      ReachNext(c, s.(producer := Deciding(HELLO, false)), keep);
      ReachNext(c, s.(producer := Enqueueing(HELLO)), keep);
      assert Filled(n) == s.(buffer := s.buffer + [HELLO], accepted := s.accepted + [HELLO]);
    }
  }

  function Filled(n: nat): (s: State) {
    INIT.(buffer := seq(n, _ => HELLO), accepted := seq(n, _ => HELLO))
  }

  /** With both delays zero the scheduler takes one of n messages and goes straight to the
      assertion, at clock reading 0. */
  lemma ReachAssertingInstantly(n: nat)
    requires 1 <= n <= BUFFER_SIZE
    ensures Reachable(Config(0, 0), TookOne(n))
  {
    hide Reachable;
    var c, s := Config(0, 0), Filled(n);
    ReachFilled(c, n);
    ReachNext(c, s, Clock(0));
    ReachNext(c, s.(scheduler := Draining), Schedule);
    ReachNext(c, s.(scheduler := CheckingBuffer), Schedule);
    s := s.(stuff := true, seenAtCheck := n, sizeAtCheck := n);
    ReachNext(c, s.(scheduler := Admitting), Schedule);
    ReachNext(c, s.(scheduler := Taking), Schedule);
    s := s.(buffer := s.buffer[1..]);
    ReachNext(c, s.(scheduler := Launching(HELLO)), Schedule);
    s := s.(inFlight := [] + [Flight(HELLO, 0, 0)]);
    ReachNext(c, s.(scheduler := ComputingWaits), Schedule);
    assert s.buffer == Filled(n - 1).buffer && s.(scheduler := Asserting) == TookOne(n);
  }

  function TookOne(n: nat): (s: State)
    requires n >= 1
  {
    Filled(n).(scheduler := Asserting, stuff := true, seenAtCheck := n, sizeAtCheck := n,
               buffer := Filled(n - 1).buffer, inFlight := [Flight(HELLO, 0, 0)])
  }

  /** With both delays zero two or more messages in the buffer abort the emulator without any
      arrival after the look at it. */
  lemma AbortWithoutArrival(n: nat)
    requires 2 <= n <= BUFFER_SIZE
    ensures exists s :: Reachable(Config(0, 0), s) && s.scheduler.Aborted? && |s.accepted| == s.seenAtCheck == n
  {
    hide Reachable;
    ReachAssertingInstantly(n);
    ReachNext(Config(0, 0), TookOne(n), Schedule);
    assert Reachable(Config(0, 0), TookOne(n).(scheduler := Aborted));
  }

  /** With both delays zero the scheduler blocks although a message is in flight. */
  lemma BlockedWithMessageExample()
    ensures exists s :: Reachable(Config(0, 0), s) && s.scheduler == Blocked(false) && |s.inFlight| == 1
  {
    hide Reachable;
    ReachAssertingInstantly(1);
    ReachNext(Config(0, 0), TookOne(1), Schedule);
    assert Reachable(Config(0, 0), TookOne(1).(scheduler := Blocked(false)));
  }
}
