/** Receive events and reads: the network side announces each buffer with an event, the server task answers every
    event with one call of ws_read, and buffers arrive at any time, also in the middle of a read. */
module WebSocketEvents {
  import opened Wire
  import opened WebSocket

  /** Between reads, or collecting the frame whose first buffer has the number `start`. */
  datatype Reading = Idle | Collecting(start: nat, length: nat, have: nat)

  datatype State = State(
    arrived: nat,      // buffers received so far, each announced by an event
    taken: nat,        // buffers taken out of the mailbox
    answered: nat,     // calls of ws_read that have returned
    unfinished: nat,
    reading: Reading)

  datatype Action =
    | Arrive
    | CountDown      // a read that finds the counter of unfinished reads set
    | Begin          // a read that takes the first buffer of a frame
    | BeginFails     // a read whose first receive call fails
    | TakeMore       // one more buffer; too long a one ends the read
    | TakeFails      // a later receive call fails
    | Return         // the frame is complete

  const INITIAL := State(0, 0, 0, 0, Idle)

  predicate Enabled(stream: seq<seq<byte>>, s: State, a: Action) {
    match a
    case Arrive => s.arrived < |stream|
    case CountDown => s.reading.Idle? && s.unfinished > 0
    case Begin => s.reading.Idle? && s.unfinished == 0 && s.taken < s.arrived <= |stream| && WholeHeader(stream[s.taken])
    case BeginFails => s.reading.Idle? && s.unfinished == 0
    case TakeMore => s.reading.Collecting? && s.reading.have < s.reading.length && s.taken < s.arrived <= |stream|
    case TakeFails => s.reading.Collecting? && s.reading.have < s.reading.length
    case Return => s.reading.Collecting? && s.reading.have >= s.reading.length
  }

  /** The buffer at hand does not fit into the frame. */
  predicate TooMuch(stream: seq<seq<byte>>, s: State)
    requires Enabled(stream, s, TakeMore)
  {
    s.reading.have + |stream[s.taken]| > s.reading.length
  }

  function Next(stream: seq<seq<byte>>, s: State, a: Action): State
    requires Enabled(stream, s, a)
  {
    match a
    case Arrive => s.(arrived := s.arrived + 1)
    case CountDown => s.(unfinished := s.unfinished - 1, answered := s.answered + 1)
    case Begin =>
      var buf := stream[s.taken];
      s.(taken := s.taken + 1, reading := Collecting(s.taken, HeadOf(buf).length, |buf| - HeadOf(buf).pos))
    case BeginFails => s.(answered := s.answered + 1)
    case TakeMore =>
      if TooMuch(stream, s) then s.(taken := s.taken + 1, unfinished := 0, answered := s.answered + 1, reading := Idle)
      else s.(taken := s.taken + 1, unfinished := s.unfinished + 1,
              reading := s.reading.(have := s.reading.have + |stream[s.taken]|))
    case TakeFails => s.(unfinished := 0, answered := s.answered + 1, reading := Idle)
    case Return => s.(answered := s.answered + 1, reading := Idle)
  }

  /** By how many a step brings events and reads out of count: a read that gives up leaves the events of the further
      buffers it took unanswered, and a read that gets no buffer answers an event for nothing. */
  function Astray(stream: seq<seq<byte>>, s: State, a: Action): int
    requires Enabled(stream, s, a)
  {
    if a.TakeMore? && TooMuch(stream, s) then s.unfinished + 1
    else if a.TakeFails? then s.unfinished
    else if a.BeginFails? then -1
    else 0
  }

  predicate Run(stream: seq<seq<byte>>, s: State, actions: seq<Action>, t: State)
    decreases |actions|
  {
    if actions == [] then t == s
    else Enabled(stream, s, actions[0]) && Run(stream, Next(stream, s, actions[0]), actions[1..], t)
  }

  ghost function AllAstray(stream: seq<seq<byte>>, s: State, actions: seq<Action>, t: State): int
    requires Run(stream, s, actions, t)
    decreases |actions|
  {
    if actions == [] then 0
    else Astray(stream, s, actions[0]) + AllAstray(stream, Next(stream, s, actions[0]), actions[1..], t)
  }

  /** Events not yet answered, beyond the unread buffers, the unfinished reads and the read under way. */
  function Excess(s: State): int {
    s.arrived - s.answered - (s.arrived - s.taken) - s.unfinished - if s.reading.Collecting? then 1 else 0
  }

  /** The read under way has collected what ws_read's contract says it has, whenever the buffers arrived. */
  ghost predicate Fits(stream: seq<seq<byte>>, s: State) {
    && s.taken <= s.arrived <= |stream|
    && (s.reading.Collecting? ==>
          var start := s.reading.start;
          && start < s.taken && s.unfinished == s.taken - start - 1
          && WholeHeader(stream[start]) && s.reading.length == HeadOf(stream[start]).length
          && Collects(stream[start..], s.reading.length, |stream[start]| - HeadOf(stream[start]).pos, s.unfinished,
                      s.reading.have))
  }

  lemma StepFits(stream: seq<seq<byte>>, s: State, a: Action)
    requires Fits(stream, s) && Enabled(stream, s, a)
    ensures Fits(stream, Next(stream, s, a))
    ensures Excess(Next(stream, s, a)) == Excess(s) + Astray(stream, s, a)
  {
    hide HeadOf, WholeHeader, Collects;
    if a.Begin? {
      StartCollecting(stream[s.taken..], HeadOf(stream[s.taken]).length, |stream[s.taken]| - HeadOf(stream[s.taken]).pos);
    } else if a.TakeMore? {
      var start := s.reading.start;
      assert stream[start..][1 + s.unfinished] == stream[s.taken];
      StepCollecting(stream[start..], s.reading.length, |stream[start]| - HeadOf(stream[start]).pos, s.unfinished,
                     s.reading.have);
    }
  }

  lemma {:induction false} RunFits(stream: seq<seq<byte>>, s: State, actions: seq<Action>, t: State)
    requires Fits(stream, s) && Run(stream, s, actions, t)
    ensures Fits(stream, t) && Excess(t) == Excess(s) + AllAstray(stream, s, actions, t)
    decreases |actions|
  {
    hide Fits, Excess, Next, Enabled, Astray;
    if actions != [] {
      StepFits(stream, s, actions[0]);
      RunFits(stream, Next(stream, s, actions[0]), actions[1..], t);
    }
  }

  lemma InitiallyFits(stream: seq<seq<byte>>)
    ensures Fits(stream, INITIAL) && Excess(INITIAL) == 0
  {
  }

  /** Between reads, under every interleaving: arrivals minus reads are the unread buffers plus the unfinished reads,
      plus what has gone astray. */
  lemma EventsAreAnswered(stream: seq<seq<byte>>, actions: seq<Action>, t: State)
    requires Run(stream, INITIAL, actions, t) && t.reading.Idle?
    ensures t.arrived - t.answered == (t.arrived - t.taken) + t.unfinished + AllAstray(stream, INITIAL, actions, t)
  {
    InitiallyFits(stream);
    RunFits(stream, INITIAL, actions, t);
  }

  /** A read that ends without success although it has taken more than its first buffer. */
  predicate GivesUp(stream: seq<seq<byte>>, s: State, a: Action)
    requires Enabled(stream, s, a)
  {
    (a.TakeMore? && TooMuch(stream, s)) || (a.TakeFails? && s.unfinished > 0)
  }

  ghost predicate NeverGivesUp(stream: seq<seq<byte>>, s: State, actions: seq<Action>, t: State)
    requires Run(stream, s, actions, t)
    decreases |actions|
  {
    actions == []
    || (!GivesUp(stream, s, actions[0]) && NeverGivesUp(stream, Next(stream, s, actions[0]), actions[1..], t))
  }

  lemma {:induction false} AstrayIffGivenUp(stream: seq<seq<byte>>, s: State, actions: seq<Action>, t: State)
    requires Run(stream, s, actions, t) && BeginFails !in actions
    ensures AllAstray(stream, s, actions, t) >= 0
    ensures AllAstray(stream, s, actions, t) == 0 <==> NeverGivesUp(stream, s, actions, t)
    decreases |actions|
  {
    if actions != [] {
      AstrayIffGivenUp(stream, Next(stream, s, actions[0]), actions[1..], t);
    }
  }

  /** As long as each read gets its first buffer, the count is right exactly if no read has given up on a frame with
      more than its first buffer taken; and it only errs by events for which there is no buffer any more. */
  lemma CountIsRightUnlessGivenUp(stream: seq<seq<byte>>, actions: seq<Action>, t: State)
    requires Run(stream, INITIAL, actions, t) && t.reading.Idle? && BeginFails !in actions
    ensures t.arrived - t.answered == (t.arrived - t.taken) + t.unfinished <==> NeverGivesUp(stream, INITIAL, actions, t)
    ensures t.arrived - t.answered >= (t.arrived - t.taken) + t.unfinished
  {
    EventsAreAnswered(stream, actions, t);
    AstrayIffGivenUp(stream, INITIAL, actions, t);
  }

  /** A read that returns a frame has taken exactly the buffers that the contract of the uninterrupted read names. */
  lemma ReturnAgrees(stream: seq<seq<byte>>, actions: seq<Action>, t: State)
    requires Run(stream, INITIAL, actions, t) && Enabled(stream, t, Return)
    ensures var start := t.reading.start;
      && start < |stream| && WholeHeader(stream[start])
      && var h := HeadOf(stream[start]);
         Collect(|stream[start]| - h.pos, h.length, stream[start + 1..]) == Complete(t.unfinished)
         && t.taken == start + 1 + t.unfinished
  {
    InitiallyFits(stream);
    RunFits(stream, INITIAL, actions, t);
    hide HeadOf, WholeHeader, Collects;
    var start := t.reading.start;
    assert stream[start..][1..] == stream[start + 1..];
    StepCollecting(stream[start..], t.reading.length, |stream[start]| - HeadOf(stream[start]).pos, t.unfinished,
                   t.reading.have);
  }

  /** And a read that gives up because of a buffer does so where that contract says, or with no more buffers there. */
  lemma GiveUpAgrees(stream: seq<seq<byte>>, actions: seq<Action>, t: State)
    requires Run(stream, INITIAL, actions, t) && Enabled(stream, t, TakeMore) && TooMuch(stream, t)
    ensures var start := t.reading.start;
      && start < |stream| && WholeHeader(stream[start])
      && var h := HeadOf(stream[start]);
         Collect(|stream[start]| - h.pos, h.length, stream[start + 1..]) == GivenUp(t.unfinished + 1)
  {
    InitiallyFits(stream);
    RunFits(stream, INITIAL, actions, t);
    hide HeadOf, WholeHeader, Collects;
    var start := t.reading.start;
    assert stream[start..][1..] == stream[start + 1..];
    assert stream[start..][1 + t.unfinished] == stream[t.taken];
    StepCollecting(stream[start..], t.reading.length, |stream[start]| - HeadOf(stream[start]).pos, t.unfinished,
                   t.reading.have);
  }

  /** A read under way returns as soon as its frame is complete, and else takes the next buffer or fails. */
  lemma ReadGoesOn(stream: seq<seq<byte>>, actions: seq<Action>, t: State)
    requires Run(stream, INITIAL, actions, t) && t.reading.Collecting?
    ensures Enabled(stream, t, Return) != Enabled(stream, t, TakeFails)
    ensures !Enabled(stream, t, Return) && t.taken < t.arrived ==> Enabled(stream, t, TakeMore)
  {
    InitiallyFits(stream);
    RunFits(stream, INITIAL, actions, t);
  }

  /** It does go wrong: a frame of one byte whose second buffer brings two leaves an event without a buffer. */
  lemma CountGoesWrong()
    ensures var stream: seq<seq<byte>>, t := [[129, 1], [0, 0]], State(2, 2, 1, 0, Idle);
      Run(stream, INITIAL, [Arrive, Arrive, Begin, TakeMore], t) && t.arrived - t.answered == 1 && t.taken == t.arrived
  {
    var stream: seq<seq<byte>> := [[129, 1], [0, 0]];
    var s1 := Next(stream, INITIAL, Arrive);
    var s2 := Next(stream, s1, Arrive);
    var s3 := Next(stream, s2, Begin);
    assert Run(stream, Next(stream, s3, TakeMore), [], State(2, 2, 1, 0, Idle));
    assert Run(stream, s3, [TakeMore], State(2, 2, 1, 0, Idle));
    assert Run(stream, s2, [Begin, TakeMore], State(2, 2, 1, 0, Idle));
    assert Run(stream, s1, [Arrive, Begin, TakeMore], State(2, 2, 1, 0, Idle));
  }
}
