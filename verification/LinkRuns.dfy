/** What the labels of a run alone say about the emulator: which clock readings the scheduler
    works with, and which messages the forwarding thread accepts. */
module LinkRuns {
  import opened Link

  // ---- The reference: clock readings and kept messages, by the labels --------------------------

  /** The last clock reading; the scheduler starts from 0. */
  function LastReading(ls: seq<Label>): (now: int) {
    if |ls| == 0 then 0
    else if ls[|ls| - 1].Clock? then ls[|ls| - 1].now else LastReading(ls[..|ls| - 1])
  }

  /** How many steps the forwarding thread has made since it last received a message: first it
      looks at the buffer size, then it decides, then it enqueues. */
  function Since(ls: seq<Label>): (n: nat) {
    if |ls| == 0 || ls[|ls| - 1].Receive? then 0
    else Since(ls[..|ls| - 1]) + if ls[|ls| - 1].Produce? then 1 else 0
  }

  /** The message it received last. */
  function LastReceived(ls: seq<Label>): (m: Msg) {
    if |ls| == 0 then HELLO
    else if ls[|ls| - 1].Receive? then ls[|ls| - 1].m else LastReceived(ls[..|ls| - 1])
  }

  /** The buffer size that its last look showed. */
  ghost function SizeSeen(c: Config, ls: seq<Label>): (n: nat)
    requires Run(c, INIT, ls)
    decreases |ls|
  {
    if |ls| == 0 then 0
    else
      var prior := ls[..|ls| - 1];
      RunPrefix(c, INIT, ls, |ls| - 1);
      if ls[|ls| - 1].Produce? && Since(prior) == 0 then |After(c, INIT, prior).buffer| else SizeSeen(c, prior)
  }

  /** The messages decided for: those neither refused by a full buffer nor lost. */
  ghost function Kept(c: Config, ls: seq<Label>): (ms: seq<Msg>)
    requires Run(c, INIT, ls)
    decreases |ls|
  {
    if |ls| == 0 then []
    else
      var prior, l := ls[..|ls| - 1], ls[|ls| - 1];
      RunPrefix(c, INIT, ls, |ls| - 1);
      Kept(c, prior) + if l.Produce? && Since(prior) == 1 && !l.lost && SizeSeen(c, prior) < BUFFER_SIZE
                       then [l.forwarded] else []
  }

  /** Decided for and not yet enqueued. */
  function Pending(s: State): (ms: seq<Msg>) {
    if s.producer.Enqueueing? then [s.producer.m] else []
  }

  /** The reading at each step that sends a message. */
  ghost function Departures(c: Config, ls: seq<Label>): (times: seq<int>)
    requires Run(c, INIT, ls)
    decreases |ls|
  {
    if |ls| == 0 then []
    else
      var prior := ls[..|ls| - 1];
      RunPrefix(c, INIT, ls, |ls| - 1);
      Departures(c, prior) + if |After(c, INIT, ls).sent| != |After(c, INIT, prior).sent|
                             then [LastReading(prior)] else []
  }

  function Launched(s: State): (n: nat) {
    |s.sent| + |s.inFlight|
  }

  /** The reading at each step that puts a message in flight. */
  ghost function Launches(c: Config, ls: seq<Label>): (times: seq<int>)
    requires Run(c, INIT, ls)
    decreases |ls|
  {
    if |ls| == 0 then []
    else
      var prior := ls[..|ls| - 1];
      RunPrefix(c, INIT, ls, |ls| - 1);
      Launches(c, prior) + if Launched(After(c, INIT, ls)) != Launched(After(c, INIT, prior))
                           then [LastReading(prior)] else []
  }

  /** Buffer size and number of accepted messages at the scheduler's last look. */
  ghost function LastLook(c: Config, ls: seq<Label>): (look: (nat, nat))
    requires Run(c, INIT, ls)
    decreases |ls|
  {
    if |ls| == 0 then (0, 0)
    else
      var prior := ls[..|ls| - 1];
      RunPrefix(c, INIT, ls, |ls| - 1);
      var s := After(c, INIT, prior);
      if s.scheduler.CheckingBuffer? && ls[|ls| - 1].Schedule? then (|s.buffer|, |s.accepted|) else LastLook(c, prior)
  }

  // ---- Runs, one label at a time ----------------------------------------------------------------

  lemma {:induction false} RunPrefix(c: Config, s: State, ls: seq<Label>, n: nat)
    requires Run(c, s, ls) && n <= |ls|
    ensures Run(c, s, ls[..n])
    decreases |ls|
  {
    if 0 < n && !NullDequeue(s) {
      RunPrefix(c, Next(c, s, ls[0]), ls[1..], n - 1);
      assert ls[..n][1..] == ls[1..][..n - 1];
    }
  }

  lemma {:induction false} LastStep(c: Config, s: State, ls: seq<Label>)
    requires Run(c, s, ls) && |ls| > 0 && Conserved(s) && Bounded(s) && LookHolds(s)
    ensures var prior := ls[..|ls| - 1];
      && Run(c, s, prior) && !NullDequeue(After(c, s, prior))
      && Enabled(After(c, s, prior), ls[|ls| - 1])
      && After(c, s, ls) == Next(c, After(c, s, prior), ls[|ls| - 1])
    decreases |ls|
  {
    hide Next, Conserved, Bounded, Enabled;
    var prior := ls[..|ls| - 1];
    if |ls| == 1 {
      assert prior == [] && ls[1..] == [];
    } else {
      NextConserves(c, s, ls[0]);
      NextBounded(c, s, ls[0]);
      LastStep(c, Next(c, s, ls[0]), ls[1..]);
      assert prior[1..] == ls[1..][..|ls| - 2] && prior[0] == ls[0] && ls[1..][|ls| - 2] == ls[|ls| - 1];
    }
  }

  /** The last label of a run takes the state before it to the state after. */
  lemma Snoc(c: Config, ls: seq<Label>) returns (prior: seq<Label>, s: State, l: Label)
    requires Run(c, INIT, ls) && |ls| > 0
    ensures prior == ls[..|ls| - 1] && l == ls[|ls| - 1]
    ensures Run(c, INIT, prior) && s == After(c, INIT, prior)
    ensures Enabled(s, l) && !NullDequeue(s) && After(c, INIT, ls) == Next(c, s, l)
  {
    prior, l := ls[..|ls| - 1], ls[|ls| - 1];
    LastStep(c, INIT, ls);
    s := After(c, INIT, prior);
  }

  // ---- The scheduler's clock --------------------------------------------------------------------

  function SentTimes(s: State): (times: seq<int>) {
    seq(|s.sent|, i requires 0 <= i < |s.sent| => s.sent[i].at)
  }

  /** When each message was put in flight, those already sent first. */
  function Dispatches(s: State): (times: seq<int>)
    ensures |times| == Launched(s)
  {
    seq(|s.sent|, i requires 0 <= i < |s.sent| => s.sent[i].dispatched)
    + seq(|s.inFlight|, i requires 0 <= i < |s.inFlight| => s.inFlight[i].dispatched)
  }

  lemma StepTimes(c: Config, s: State, l: Label)
    requires Enabled(s, l) && !NullDequeue(s)
    ensures var s' := Next(c, s, l);
      && s'.crtTime == (if l.Clock? then l.now else s.crtTime)
      && SentTimes(s') == SentTimes(s) + (if |s'.sent| != |s.sent| then [s.crtTime] else [])
      && Dispatches(s') == Dispatches(s) + (if Launched(s') != Launched(s) then [s.crtTime] else [])
  {
  }

  /** The scheduler works with the last clock reading: it is the time of everything it sends and
      puts in flight. */
  lemma {:induction false} ReadingsAreUsed(c: Config, ls: seq<Label>)
    requires Run(c, INIT, ls)
    ensures var s := After(c, INIT, ls);
      && s.crtTime == LastReading(ls)
      && SentTimes(s) == Departures(c, ls) && Dispatches(s) == Launches(c, ls)
    decreases |ls|
  {
    if |ls| > 0 {
      hide Next, Dispatches, SentTimes, Run, After, NullDequeue;
      var prior, s, l := Snoc(c, ls);
      ReadingsAreUsed(c, prior);
      StepTimes(c, s, l);
    }
  }

  /** Everything due at the reading of this iteration has been sent when draining ends; only a
      message launched since, with both delays zero, can be due again. */
  lemma NothingDueStays(c: Config, ls: seq<Label>)
    requires Run(c, INIT, ls)
    ensures var s := After(c, INIT, ls);
      Drained(s) ==> forall i :: 0 <= i < |s.inFlight| ==>
        s.inFlight[i].finish > LastReading(ls) || (Instant(c) && s.inFlight[i].dispatched == LastReading(ls))
  {
    hide Run, After;
    ReadingsAreUsed(c, ls);
    InitHolds(c);
    RunTimes(c, INIT, ls);
    if Drained(After(c, INIT, ls)) { AfterTheHead(c, After(c, INIT, ls)); }
  }

  lemma AfterTheHead(c: Config, s: State)
    requires Inv(c, s) && Drained(s)
    ensures forall i :: 0 <= i < |s.inFlight| ==>
      s.inFlight[i].finish > s.crtTime || (Instant(c) && s.inFlight[i].dispatched == s.crtTime)
  {
    hide Conserved, Bounded, LookHolds, WaitsRight, Ceiling;
  }

  /** The link is idle again one serialization delay after the last launch. */
  ghost predicate IdleAfterLaunch(c: Config, s: State) {
    var d := Dispatches(s);
    && (!s.scheduler.Taking? && !s.scheduler.Launching? ==>
          s.idleTime == if |d| == 0 then 0 else d[|d| - 1] + c.serialization)
    && (s.scheduler.ComputingWaits? && s.stuff ==>
          s.crtTime < s.idleTime || (|d| > 0 && d[|d| - 1] == s.crtTime))
  }

  lemma NextIdle(c: Config, s: State, l: Label)
    requires IdleAfterLaunch(c, s) && LookHolds(s) && Ceiling(c, s) && Enabled(s, l) && !NullDequeue(s)
    ensures IdleAfterLaunch(c, Next(c, s, l))
  {
    StepTimes(c, s, l);
    hide Dispatches, SentTimes;
  }

  lemma {:induction false} RunIdle(c: Config, ls: seq<Label>)
    requires Run(c, INIT, ls)
    ensures IdleAfterLaunch(c, After(c, INIT, ls)) && Inv(c, After(c, INIT, ls))
    decreases |ls|
  {
    InitHolds(c);
    RunTimes(c, INIT, ls);
    if |ls| > 0 {
      hide Next, IdleAfterLaunch, Run, After, NullDequeue, Conserved, Bounded, WaitsRight;
      var prior, s, l := Snoc(c, ls);
      RunIdle(c, prior);
      NextIdle(c, s, l);
    }
  }

  /** A message seen at the size check is put in flight in that iteration, unless the link is
      still busy with the one before. */
  lemma NoNeedlessDelay(c: Config, ls: seq<Label>)
    requires Run(c, INIT, ls)
    ensures var s, d, now := After(c, INIT, ls), Launches(c, ls), LastReading(ls);
      s.scheduler.ComputingWaits? && s.sizeAtCheck > 0 ==>
        if |d| == 0 then now < 0 else d[|d| - 1] == now || now < d[|d| - 1] + c.serialization
  {
    hide Run, After;
    ReadingsAreUsed(c, ls);
    RunIdle(c, ls);
  }

  lemma StepLooks(c: Config, s: State, l: Label)
    requires Enabled(s, l) && !NullDequeue(s)
    ensures var s' := Next(c, s, l);
      (s'.sizeAtCheck, s'.seenAtCheck) == if s.scheduler.CheckingBuffer? && l.Schedule?
                                          then (|s.buffer|, |s.accepted|) else (s.sizeAtCheck, s.seenAtCheck)
  {
  }

  /** What the scheduler's last look showed is what the assertion is judged by. */
  lemma {:induction false} LookIsRecorded(c: Config, ls: seq<Label>)
    requires Run(c, INIT, ls)
    ensures var s := After(c, INIT, ls); (s.sizeAtCheck, s.seenAtCheck) == LastLook(c, ls)
    decreases |ls|
  {
    if |ls| > 0 {
      hide Next, Run, After, NullDequeue;
      var prior, s, l := Snoc(c, ls);
      LookIsRecorded(c, prior);
      StepLooks(c, s, l);
    }
  }

  // ---- The forwarding thread ----------------------------------------------------------------------

  /** Where the thread is, by the number of its steps, the message it received and the size it
      saw. */
  predicate ProducerAt(s: State, since: nat, got: Msg, seen: nat) {
    match s.producer
    case Receiving => since != 1
    case Checking(m) => since == 0 && m == got
    case Deciding(m, overflow) => since == 1 && m == got && (overflow <==> seen >= BUFFER_SIZE)
    case Enqueueing(m) => since == 2 && MayBecome(got, m)
  }

  lemma ProducerFollows(c: Config, s: State, l: Label, since: nat, got: Msg, seen: nat)
    requires Enabled(s, l) && !NullDequeue(s) && ProducerAt(s, since, got, seen)
    ensures var s' := Next(c, s, l);
      && ProducerAt(s', if l.Receive? then 0 else if l.Produce? then since + 1 else since,
                    if l.Receive? then l.m else got, if l.Produce? && since == 0 then |s.buffer| else seen)
      && s'.accepted + Pending(s') == s.accepted + Pending(s)
           + (if l.Produce? && since == 1 && !l.lost && seen < BUFFER_SIZE then [l.forwarded] else [])
    ensures l.Produce? && since == 1 ==> MayBecome(got, l.forwarded)
  {
    hide MayBecome;
  }

  /** Exactly the messages that are neither refused nor lost are accepted, in order; a message is
      refused exactly when the thread's look found the buffer full. */
  lemma {:induction false} AcceptsWhatItKeeps(c: Config, ls: seq<Label>)
    requires Run(c, INIT, ls)
    ensures var s := After(c, INIT, ls);
      && ProducerAt(s, Since(ls), LastReceived(ls), SizeSeen(c, ls))
      && s.accepted + Pending(s) == Kept(c, ls)
    decreases |ls|
  {
    if |ls| > 0 {
      hide Next, Run, After, NullDequeue, ProducerAt, Pending, MayBecome;
      var prior, s, l := Snoc(c, ls);
      AcceptsWhatItKeeps(c, prior);
      ProducerFollows(c, s, l, Since(prior), LastReceived(prior), SizeSeen(c, prior));
    } else {
      assert ProducerAt(INIT, 0, HELLO, 0) && Pending(INIT) == [];
    }
  }

  /** What is decided for is the message received last, with one byte corrupted at most. */
  lemma KeptAsReceived(c: Config, ls: seq<Label>)
    requires Run(c, INIT, ls) && |ls| > 0 && ls[|ls| - 1].Produce? && Since(ls[..|ls| - 1]) == 1
    ensures MayBecome(LastReceived(ls[..|ls| - 1]), ls[|ls| - 1].forwarded)
  {
    hide Next, Run, After, NullDequeue, ProducerAt, Pending, MayBecome, Kept;
    var prior, s, l := Snoc(c, ls);
    AcceptsWhatItKeeps(c, prior);
    ProducerFollows(c, s, l, Since(prior), LastReceived(prior), SizeSeen(c, prior));
  }
}
