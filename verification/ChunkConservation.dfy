/** Who owns a PCM chunk: the network task that inserts chunks and the player task that plays them, step by step
    between their accesses to the chunk queue. Chunks are numbered in the order in which they are handed over. */
module ChunkConservation {
  import opened Wire

  /** pcmChkQHdl. Deleted: the queue is gone but the handle is not yet NULL. */
  datatype Handle = Absent | Present(items: seq<nat>) | Deleted

  /** insert_pcm_chunk: before its check of the handle; after it; after the check of the latency buffer. */
  datatype Sender = Idle | Entered(id: nat) | Checked(id: nat) | Passed(id: nat)

  /** Where player_task stands. `ends`: the queue is destroyed because player_task ends. */
  datatype Phase =
    | Ended
    | Top
    | Receiving
    | Serving
    | Draining(late: nat)
    | Preloading
    | Playing
    | Measured
    | Destroying(ends: bool)
    | Deleting(ends: bool)  // the queue has been found empty
    | Clearing(ends: bool)
    | Creating

  datatype State = State(
    handle: Handle,
    capacity: nat,
    given: nat,
    sender: Sender,
    phase: Phase,
    held: Option<nat>,
    freed: seq<nat>,
    lost: seq<nat>)      // neither freed nor reachable any more

  datatype SenderAction =
    | Give
    | CheckQueue
    | CheckLatency(full: bool)
    | Send
    | SendTimesOut
    | StartPlayer(entries: nat)

  datatype PlayerAction =
    | SettingsChanged(destroy: bool)
    | NoSettings
    | Create(entries: nat)
    | Receive
    | ReceiveTimesOut
    | DropUnsynced
    | DropLate(late: nat)
    | Drain
    | DrainFails
    | StartPreload
    | PreloadReceive
    | PreloadWhole
    | PreloadPart
    | StartPlaying
    | Play
    | Measure
    | DestroyOne
    | FoundEmpty
    | Delete
    | Clear

  function Items(h: Handle): seq<nat> {
    if h.Present? then h.items else []
  }

  function Free(s: State, id: nat): State {
    s.(freed := s.freed + [id])
  }

  predicate SenderEnabled(s: State, a: SenderAction) {
    match a
    case Give => s.sender.Idle?
    case CheckQueue => s.sender.Entered?
    case CheckLatency(_) => s.sender.Checked?
    case Send => s.sender.Passed? && (s.handle.Present? ==> |s.handle.items| < s.capacity)
    case SendTimesOut => s.sender.Passed? && s.handle.Present? && |s.handle.items| >= s.capacity
    case StartPlayer(_) => s.sender.Idle? && s.phase.Ended?
  }

  function SenderStep(s: State, a: SenderAction): State
    requires SenderEnabled(s, a)
  {
    match a
    case Give => s.(sender := Entered(s.given), given := s.given + 1)
    case CheckQueue =>
      if s.handle.Absent? then Free(s, s.sender.id).(sender := Idle) else s.(sender := Checked(s.sender.id))
    case CheckLatency(full) =>
      if full then s.(sender := Passed(s.sender.id)) else Free(s, s.sender.id).(sender := Idle)
    case Send =>
      var id := s.sender.id;
      if s.handle.Present? then
        s.(handle := Present(s.handle.items + [id]), sender := Idle)
      else s.(lost := s.lost + [id], sender := Idle)
    case SendTimesOut => Free(s, s.sender.id).(sender := Idle)
    case StartPlayer(entries) =>
      s.(phase := Top, held := None,
         handle := if s.handle.Absent? then Present([]) else s.handle,
         capacity := if s.handle.Absent? then entries else s.capacity)
  }

  predicate CanReceive(s: State) {
    s.handle.Present? && s.handle.items != []
  }

  predicate PlayerEnabled(s: State, a: PlayerAction) {
    match a
    case SettingsChanged(_) => s.phase.Top?
    case NoSettings => s.phase.Top?
    case Create(_) => s.phase.Creating?
    case Receive => s.phase.Receiving? && (s.held.Some? || s.handle.Absent? || CanReceive(s))
    case ReceiveTimesOut => s.phase.Receiving? && s.held.None? && s.handle.Present? && s.handle.items == []
    case DropUnsynced => s.phase.Serving? && s.held.Some?
    case DropLate(_) => s.phase.Serving? && s.held.Some?
    case Drain => s.phase.Draining? && (s.phase.late == 0 || CanReceive(s))
    case DrainFails => s.phase.Draining? && s.phase.late > 0 && !CanReceive(s)
    case StartPreload => s.phase.Serving?
    case PreloadReceive => s.phase.Preloading? && s.held.None? && CanReceive(s)
    case PreloadWhole => s.phase.Preloading? && s.held.Some?
    case PreloadPart => s.phase.Preloading? && s.held.Some?
    case StartPlaying => s.phase.Serving?
    case Play => s.phase.Playing? && s.held.Some?
    case Measure => s.phase.Measured?
    case DestroyOne => s.phase.Destroying? && CanReceive(s)
    case FoundEmpty => s.phase.Destroying? && !CanReceive(s)
    case Delete => s.phase.Deleting?
    case Clear => s.phase.Clearing?
  }

  function TakeHead(s: State): State
    requires CanReceive(s)
  {
    s.(handle := Present(s.handle.items[1..]))
  }

  function FreeHeld(s: State): State {
    match s.held
    case None => s
    case Some(id) => Free(s, id).(held := None)
  }

  function PlayerStep(s: State, a: PlayerAction): State
    requires PlayerEnabled(s, a)
  {
    match a
    case SettingsChanged(destroy) => s.(phase := if destroy then Destroying(false) else Creating)
    case NoSettings => s.(phase := Receiving)
    case Create(entries) =>
      if s.handle.Absent? then s.(handle := Present([]), capacity := entries, phase := Receiving)
      else s.(phase := Receiving)
    case Receive =>
      if s.held.Some? then s.(phase := Serving)
      else if s.handle.Absent? then s.(phase := Top)
      else TakeHead(s).(held := Some(s.handle.items[0]), phase := Serving)
    case ReceiveTimesOut => s.(phase := Destroying(true))
    case DropUnsynced => FreeHeld(s).(phase := Top)
    case DropLate(late) => FreeHeld(s).(phase := Draining(late))
    case Drain =>
      if s.phase.late == 0 then s.(phase := Top)
      else Free(TakeHead(s), s.handle.items[0]).(phase := Draining(s.phase.late - 1))
    case DrainFails => s.(phase := Top)
    case StartPreload => s.(phase := Preloading)
    case PreloadReceive => TakeHead(s).(held := Some(s.handle.items[0]))
    case PreloadWhole => FreeHeld(s)
    case PreloadPart => s.(phase := Playing)
    case StartPlaying => s.(phase := Playing)
    case Play => FreeHeld(s).(phase := Measured)
    case Measure => FreeHeld(s).(phase := Top)
    case DestroyOne => Free(TakeHead(s), s.handle.items[0])
    case FoundEmpty =>
      if s.handle.Absent? then s.(phase := if s.phase.ends then Ended else Creating)
      else s.(phase := Deleting(s.phase.ends))
    case Delete => s.(lost := s.lost + Items(s.handle), handle := Deleted, phase := Clearing(s.phase.ends))
    case Clear => s.(handle := Absent, phase := if s.phase.ends then Ended else Creating)
  }

  const INITIAL := State(Absent, 0, 0, Idle, Ended, None, [], [])

  // ----- what every step keeps -----

  function Count(ids: seq<nat>, id: nat): nat {
    multiset(ids)[id]
  }

  function One(b: bool): nat {
    if b then 1 else 0
  }

  lemma CountAppended(a: seq<nat>, b: seq<nat>, id: nat)
    ensures Count(a + b, id) == Count(a, id) + Count(b, id)
  {
  }

  lemma CountSingle(x: nat, id: nat)
    ensures Count([x], id) == One(x == id)
    ensures Count([], id) == 0
  {
  }

  lemma CountHead(items: seq<nat>, id: nat)
    requires items != []
    ensures Count(items, id) == One(items[0] == id) + Count(items[1..], id)
  {
    assert items == [items[0]] + items[1..];
    CountAppended([items[0]], items[1..], id);
    CountSingle(items[0], id);
  }

  /** In how many places a chunk is: the network task's hands, the queue, the player's hands, freed, lost. */
  function Places(s: State, id: nat): nat {
    One(!s.sender.Idle? && s.sender.id == id) + Count(Items(s.handle), id) + One(s.held == Some(id))
    + Count(s.freed, id) + Count(s.lost, id)
  }

  /** The send of this step finds the queue already inspected for deletion, deleted, or gone. */
  predicate SendsLate(s: State, a: Action) {
    a == BySender(Send) && s.sender.Passed? && (s.phase.Deleting? || !s.handle.Present?)
  }

  /** With `late` sends of a chunk so far, it is lost, or in a queue about to be deleted, so many times. */
  predicate LostIfLate(s: State, id: nat, late: nat) {
    late == Count(s.lost, id) + if s.phase.Deleting? then Count(Items(s.handle), id) else 0
  }

  predicate PhaseFits(s: State) {
    match s.phase
    case Ended => s.handle.Absent? && s.held.None?
    case Serving => s.handle.Present? && s.held.Some?
    case Playing => s.handle.Present? && s.held.Some?
    case Draining(_) => s.handle.Present? && s.held.None?
    case Measured => s.handle.Present? && s.held.None?
    case Destroying(ends) => s.handle.Present? && (ends ==> s.held.None?)
    case Deleting(ends) => s.handle.Present? && (ends ==> s.held.None?)
    case Clearing(ends) => s.handle.Deleted? && (ends ==> s.held.None?)
    case Creating => !s.handle.Deleted?
    case _ => s.handle.Present?
  }

  predicate Conserved(s: State, id: nat, late: nat) {
    Places(s, id) == One(id < s.given) && LostIfLate(s, id, late) && PhaseFits(s)
  }

  /** How often this step sends the chunk too late. */
  function LateSend(s: State, a: Action, id: nat): nat {
    One(SendsLate(s, a) && s.sender.id == id)
  }

  lemma SenderKeepsConserved(s: State, a: SenderAction, id: nat, late: nat)
    requires Conserved(s, id, late) && SenderEnabled(s, a)
    ensures Conserved(SenderStep(s, a), id, late + LateSend(s, BySender(a), id))
  {
    hide Count;
    CountSingle(id, id);
    if !s.sender.Idle? {
      var x := s.sender.id;
      CountSingle(x, id);
      CountAppended(s.freed, [x], id);
      CountAppended(s.lost, [x], id);
      CountAppended(Items(s.handle), [x], id);
    }
  }

  lemma PlayerKeepsConserved(s: State, a: PlayerAction, id: nat, late: nat)
    requires Conserved(s, id, late) && PlayerEnabled(s, a)
    ensures Conserved(PlayerStep(s, a), id, late)
  {
    hide Count;
    CountSingle(id, id);
    CountAppended(s.lost, Items(s.handle), id);
    if CanReceive(s) {
      var x := s.handle.items[0];
      CountHead(s.handle.items, id);
      CountSingle(x, id);
      CountAppended(s.freed, [x], id);
    }
    if s.held.Some? {
      CountSingle(s.held.value, id);
      CountAppended(s.freed, [s.held.value], id);
    }
  }

  // ----- runs -----

  datatype Action = BySender(s: SenderAction) | ByPlayer(p: PlayerAction)

  predicate Enabled(s: State, a: Action) {
    match a
    case BySender(b) => SenderEnabled(s, b)
    case ByPlayer(b) => PlayerEnabled(s, b)
  }

  function Step(s: State, a: Action): State
    requires Enabled(s, a)
  {
    match a
    case BySender(b) => SenderStep(s, b)
    case ByPlayer(b) => PlayerStep(s, b)
  }

  predicate Run(s: State, actions: seq<Action>, t: State)
    decreases |actions|
  {
    if actions == [] then t == s else Enabled(s, actions[0]) && Run(Step(s, actions[0]), actions[1..], t)
  }

  /** How often a run sends the chunk after the queue has been found empty for deletion and before there is a new
      one. */
  function LateSends(s: State, actions: seq<Action>, t: State, id: nat): nat
    requires Run(s, actions, t)
    decreases |actions|
  {
    if actions == [] then 0
    else LateSend(s, actions[0], id) + LateSends(Step(s, actions[0]), actions[1..], t, id)
  }

  lemma {:induction false} RunKeepsConserved(s: State, actions: seq<Action>, t: State, id: nat, late: nat)
    requires Conserved(s, id, late) && Run(s, actions, t)
    ensures Conserved(t, id, late + LateSends(s, actions, t, id))
    decreases |actions|
  {
    hide Conserved, SenderStep, PlayerStep, SenderEnabled, PlayerEnabled, LateSend;
    if actions != [] {
      match actions[0] {
        case BySender(b) => SenderKeepsConserved(s, b, id, late);
        case ByPlayer(b) =>
          PlayerKeepsConserved(s, b, id, late);
          NotLate(s, b, id);
      }
      RunKeepsConserved(Step(s, actions[0]), actions[1..], t, id, late + LateSend(s, actions[0], id));
    }
  }

  lemma NotLate(s: State, a: PlayerAction, id: nat)
    ensures LateSend(s, ByPlayer(a), id) == 0
  {
  }

  /** In every reachable state each chunk handed over is in the network task's hands, queued, held by the player,
      freed or lost: exactly one of these, and freed at most once. */
  lemma EveryChunkIsInOnePlace(actions: seq<Action>, t: State, id: nat)
    requires Run(INITIAL, actions, t)
    ensures Places(t, id) == One(id < t.given)
  {
    RunKeepsConserved(INITIAL, actions, t, id, 0);
  }

  /** When the player has ended by queue timeout and no insertion is under way, every chunk has been freed, once,
      unless its send came after the queue had been found empty for deletion and before there was a new one: exactly
      those are lost. */
  lemma EndedMeansFreedUnlessSentLate(actions: seq<Action>, t: State, id: nat)
    requires Run(INITIAL, actions, t) && t.phase.Ended? && t.sender.Idle? && id < t.given
    ensures Count(t.freed, id) == One(LateSends(INITIAL, actions, t, id) == 0)
    ensures id in t.lost <==> LateSends(INITIAL, actions, t, id) > 0
  {
    RunKeepsConserved(INITIAL, actions, t, id, 0);
  }

  /** At any time: a chunk is lost, or in a queue about to be deleted, exactly if it was sent late. */
  lemma LostExactlyIfSentLate(actions: seq<Action>, t: State, id: nat)
    requires Run(INITIAL, actions, t)
    ensures LateSends(INITIAL, actions, t, id) > 0
       <==> id in t.lost || (t.phase.Deleting? && id in Items(t.handle))
  {
    RunKeepsConserved(INITIAL, actions, t, id, 0);
  }

  // ----- the order of chunks -----

  predicate Ascends(s: seq<nat>) {
    forall i, j :: 0 <= i < j < |s| ==> s[i] < s[j]
  }

  /** What this step takes out of the queue by receiving it. */
  function Taken(s: State, a: Action): seq<nat>
    requires Enabled(s, a)
  {
    if a.ByPlayer? && CanReceive(s)
       && ((a.p.Receive? && s.held.None?) || (a.p.Drain? && s.phase.late > 0) || a.p.PreloadReceive? || a.p.DestroyOne?)
    then [s.handle.items[0]]
    else []
  }

  /** The chunks received from the queue over a run, in order. */
  function Received(s: State, actions: seq<Action>, t: State): seq<nat>
    requires Run(s, actions, t)
    decreases |actions|
  {
    if actions == [] then [] else Taken(s, actions[0]) + Received(Step(s, actions[0]), actions[1..], t)
  }

  /** In the order handed over, and all before `limit`. */
  predicate Newest(ids: seq<nat>, limit: nat) {
    Ascends(ids) && forall i :: 0 <= i < |ids| ==> ids[i] < limit
  }

  /** The chunks in the queue are newer than those received, in the order handed over, and the one about to be sent is
      newer still. */
  predicate InOrder(s: State, received: seq<nat>) {
    && Newest(received + Items(s.handle), if s.sender.Idle? then s.given else s.sender.id)
    && (!s.sender.Idle? ==> s.sender.id < s.given)
  }

  lemma NewestGrows(ids: seq<nat>, limit: nat, higher: nat)
    requires Newest(ids, limit) && limit <= higher
    ensures Newest(ids, higher)
    ensures limit < higher ==> Newest(ids + [limit], higher)
  {
  }

  lemma NewestShrinks(ids: seq<nat>, more: seq<nat>, limit: nat)
    requires Newest(ids + more, limit)
    ensures Newest(ids, limit)
  {
    var all := ids + more;
    assert forall i :: 0 <= i < |ids| ==> ids[i] == all[i];
  }

  lemma StepKeepsOrder(s: State, a: Action, received: seq<nat>)
    requires InOrder(s, received) && Enabled(s, a)
    ensures InOrder(Step(s, a), received + Taken(s, a))
  {
    hide Step, Enabled, Taken, Newest;
    var (t, taken) := (Step(s, a), Taken(s, a));
    if a.BySender? { SenderAndOrder(s, a); } else { PlayerAndOrder(s, a); }
    var limit := if s.sender.Idle? then s.given else s.sender.id;
    var all := received + Items(s.handle);
    NewestShrinks(received, Items(s.handle), limit);
    assert received + taken + Items(t.handle) == received + (taken + Items(t.handle));
    assert received + (Items(s.handle) + [limit]) == all + [limit] && received + [] == received;
    NewestGrows(all, limit, if t.sender.Idle? then t.given else t.sender.id);
    NewestGrows(received, limit, if t.sender.Idle? then t.given else t.sender.id);
  }

  /** A step takes the queue's head, leaves the queue alone, appends the chunk being sent, or empties the queue. */
  predicate QueueMoves(s: State, t: State, taken: seq<nat>) {
    var (queue, limit) := (taken + Items(t.handle), if s.sender.Idle? then s.given else s.sender.id);
    && t.given >= s.given
    && (!t.sender.Idle? ==> limit <= t.sender.id < t.given)
    && (queue == Items(s.handle) || queue == []
        || (queue == Items(s.handle) + [limit] && !s.sender.Idle? && t.sender.Idle?))
  }

  lemma SenderAndOrder(s: State, a: Action)
    requires Enabled(s, a) && a.BySender? && (!s.sender.Idle? ==> s.sender.id < s.given)
    ensures QueueMoves(s, Step(s, a), Taken(s, a))
  {
    hide PlayerStep, PlayerEnabled;
  }

  lemma PlayerAndOrder(s: State, a: Action)
    requires Enabled(s, a) && a.ByPlayer? && (!s.sender.Idle? ==> s.sender.id < s.given)
    ensures QueueMoves(s, Step(s, a), Taken(s, a))
  {
    hide SenderStep, SenderEnabled;
  }

  lemma {:induction false} RunKeepsOrder(s: State, actions: seq<Action>, t: State, received: seq<nat>)
    requires InOrder(s, received) && Run(s, actions, t)
    ensures InOrder(t, received + Received(s, actions, t))
    decreases |actions|
  {
    hide InOrder, Step, Enabled, Taken;
    if actions == [] {
      assert received + [] == received;
    } else {
      StepKeepsOrder(s, actions[0], received);
      var (u, taken) := (Step(s, actions[0]), Taken(s, actions[0]));
      RunKeepsOrder(u, actions[1..], t, received + taken);
      assert received + taken + Received(u, actions[1..], t) == received + (taken + Received(u, actions[1..], t));
    }
  }

  /** Chunks are received in the order in which they were handed over, and what is still queued comes after them. */
  lemma ReceivedInOrder(actions: seq<Action>, t: State)
    requires Run(INITIAL, actions, t)
    ensures Ascends(Received(INITIAL, actions, t) + Items(t.handle))
  {
    assert InOrder(INITIAL, []);
    RunKeepsOrder(INITIAL, actions, t, []);
    assert [] + Received(INITIAL, actions, t) == Received(INITIAL, actions, t);
  }

  // ----- progress -----

  predicate Bounded(s: State) {
    |Items(s.handle)| <= s.capacity
  }

  lemma {:induction false} RunKeepsBounded(s: State, actions: seq<Action>, t: State)
    requires Bounded(s) && Run(s, actions, t)
    ensures Bounded(t)
    decreases |actions|
  {
    hide Step, Enabled, Bounded;
    if actions != [] {
      StepKeepsBounded(s, actions[0]);
      RunKeepsBounded(Step(s, actions[0]), actions[1..], t);
    }
  }

  lemma StepKeepsBounded(s: State, a: Action)
    requires Bounded(s) && Enabled(s, a)
    ensures Bounded(Step(s, a))
  {
  }

  /** In every reachable state the queue is no longer than its capacity, an insertion under way can go on, whether the
      queue is full or not, and so can the player, unless it waits for a chunk to preload. */
  lemma NobodyIsStuck(actions: seq<Action>, t: State)
    requires Run(INITIAL, actions, t)
    ensures |Items(t.handle)| <= t.capacity
    ensures !t.sender.Idle? ==> exists a: SenderAction :: SenderEnabled(t, a)
    ensures t.sender.Passed? ==> (SenderEnabled(t, SendTimesOut) <==> t.handle.Present? && |t.handle.items| == t.capacity)
    ensures !t.phase.Ended? && !(t.phase.Preloading? && t.held.None? && Items(t.handle) == []) ==>
              exists a: PlayerAction :: PlayerEnabled(t, a)
  {
    assert Bounded(INITIAL);
    RunKeepsBounded(INITIAL, actions, t);
    RunKeepsConserved(INITIAL, actions, t, 0, 0);
    hide Run;
    SenderGoesOn(t);
    if !t.phase.Ended? && !(t.phase.Preloading? && t.held.None? && Items(t.handle) == []) {
      var a := PlayerGoesOn(t);
    }
  }

  lemma SenderGoesOn(s: State)
    requires Bounded(s)
    ensures s.sender.Passed? ==> (SenderEnabled(s, SendTimesOut) <==> s.handle.Present? && |s.handle.items| == s.capacity)
    ensures !s.sender.Idle? ==> exists a: SenderAction :: SenderEnabled(s, a)
  {
    if s.sender.Entered? {
      assert SenderEnabled(s, CheckQueue);
    } else if s.sender.Checked? {
      assert SenderEnabled(s, CheckLatency(true));
    } else if s.sender.Passed? {
      assert SenderEnabled(s, Send) || SenderEnabled(s, SendTimesOut);
    }
  }

  lemma PlayerGoesOn(s: State) returns (a: PlayerAction)
    requires PhaseFits(s) && !s.phase.Ended? && !(s.phase.Preloading? && s.held.None? && Items(s.handle) == [])
    ensures PlayerEnabled(s, a)
  {
    match s.phase
    case Top => a := NoSettings;
    case Receiving => a := if s.held.None? && s.handle == Present([]) then ReceiveTimesOut else Receive;
    case Serving => a := StartPreload;
    case Draining(late) => a := if late == 0 || CanReceive(s) then Drain else DrainFails;
    case Preloading => a := if s.held.Some? then PreloadPart else PreloadReceive;
    case Playing => a := Play;
    case Measured => a := Measure;
    case Destroying(_) => a := if CanReceive(s) then DestroyOne else FoundEmpty;
    case Deleting(_) => a := Delete;
    case Clearing(_) => a := Clear;
    case Creating => a := Create(s.capacity);
    case Ended => assert false;
  }

  function Least(a: nat, b: nat): nat {
    if a < b then a else b
  }

  /** After a chunk that came too late, so many chunks as it was late by are dropped from the queue's front, or all that
      there are, and no more. */
  lemma {:induction false} DrainDropsLate(s: State) returns (actions: seq<Action>, t: State)
    requires s.phase.Draining? && s.handle.Present?
    ensures Run(s, actions, t) && t.phase.Top?
    ensures var n := Least(s.phase.late, |s.handle.items|);
      t.freed == s.freed + s.handle.items[..n] && t.handle == Present(s.handle.items[n..])
    decreases s.phase.late
  {
    var items := s.handle.items;
    var a, u := DrainStep(s);
    if s.phase.late == 0 || items == [] {
      actions, t := [a], u;
      assert Run(u, [], t);
      RunFirst(s, a, [], t);
    } else {
      hide Step, Enabled, Run;
      var later;
      later, t := DrainDropsLate(u);
      actions := [a] + later;
      RunFirst(s, a, later, t);
      var n := Least(s.phase.late, |items|);
      FirstOfMany(s.freed, items, n);
    }
  }

  lemma FirstOfMany(freed: seq<nat>, items: seq<nat>, n: nat)
    requires 0 < n <= |items|
    ensures freed + [items[0]] + items[1..][..n - 1] == freed + items[..n] && items[1..][n - 1..] == items[n..]
  {
  }

  lemma RunFirst(s: State, a: Action, later: seq<Action>, t: State)
    requires Enabled(s, a) && Run(Step(s, a), later, t)
    ensures Run(s, [a] + later, t)
  {
    hide Step, Enabled;
    assert ([a] + later)[0] == a && ([a] + later)[1..] == later;
  }

  lemma DrainStep(s: State) returns (a: Action, u: State)
    requires s.phase.Draining? && s.handle.Present?
    ensures Enabled(s, a) && u == Step(s, a) && u.handle.Present?
    ensures if s.phase.late == 0 || s.handle.items == [] then u.phase.Top? && u.freed == s.freed && u.handle == s.handle
            else u.phase == Draining(s.phase.late - 1) && u.freed == s.freed + [s.handle.items[0]]
                 && u.handle == Present(s.handle.items[1..])
  {
    a := ByPlayer(if s.phase.late > 0 && s.handle.items == [] then DrainFails else Drain);
    u := Step(s, a);
  }

  /** Such a loss does happen: the queue is found empty, then a chunk arrives, then the queue is deleted. */
  lemma ChunkSentLateIsLost()
    ensures exists actions, t ::
              Run(INITIAL, actions, t) && t.phase.Ended? && t.given == 1 && t.freed == [] && t.lost == [0]
  {
    var start := [BySender(StartPlayer(3)), ByPlayer(NoSettings), ByPlayer(ReceiveTimesOut), ByPlayer(FoundEmpty)];
    var insert := [BySender(Give), BySender(CheckQueue), BySender(CheckLatency(true)), BySender(Send)];
    var finish := [ByPlayer(Delete), ByPlayer(Clear)];
    var s := State(Present([]), 3, 0, Idle, Deleting(true), None, [], []);
    var t := State(Present([0]), 3, 1, Idle, Deleting(true), None, [], []);
    var u := State(Absent, 3, 1, Idle, Ended, None, [], [0]);
    hide Run, Step, Enabled;
    RunToDeletion(start, s);
    LateInsertion(s, insert, t);
    Deletion(t, finish, u);
    RunsCompose(s, insert, t, finish, u);
    RunsCompose(INITIAL, start, s, insert + finish, u);
  }

  lemma RunToDeletion(a: seq<Action>, t: State)
    requires a == [BySender(StartPlayer(3)), ByPlayer(NoSettings), ByPlayer(ReceiveTimesOut), ByPlayer(FoundEmpty)]
    requires t == State(Present([]), 3, 0, Idle, Deleting(true), None, [], [])
    ensures Run(INITIAL, a, t)
  {
    RunOfFour(INITIAL, a, t);
  }

  lemma LateInsertion(s: State, a: seq<Action>, t: State)
    requires a == [BySender(Give), BySender(CheckQueue), BySender(CheckLatency(true)), BySender(Send)]
    requires s == State(Present([]), 3, 0, Idle, Deleting(true), None, [], [])
    requires t == State(Present([0]), 3, 1, Idle, Deleting(true), None, [], [])
    ensures Run(s, a, t)
  {
    var s1 := Step(s, a[0]);
    var s2 := Step(s1, a[1]);
    var s3 := Step(s2, a[2]);
    assert s3 == State(Present([]), 3, 1, Passed(0), Deleting(true), None, [], []);
    assert [] + [0] == [0];
    RunOfFour(s, a, t);
  }

  lemma Deletion(s: State, a: seq<Action>, t: State)
    requires a == [ByPlayer(Delete), ByPlayer(Clear)]
    requires s == State(Present([0]), 3, 1, Idle, Deleting(true), None, [], [])
    requires t == State(Absent, 3, 1, Idle, Ended, None, [], [0])
    ensures Run(s, a, t)
  {
    assert [] + [0] == [0];
    assert a[1..] == [ByPlayer(Clear)] && a[1..][1..] == [];
  }

  lemma RunOfFour(s: State, a: seq<Action>, t: State)
    requires |a| == 4
    requires Enabled(s, a[0]) && Enabled(Step(s, a[0]), a[1]) && Enabled(Step(Step(s, a[0]), a[1]), a[2])
    requires Enabled(Step(Step(Step(s, a[0]), a[1]), a[2]), a[3])
    requires t == Step(Step(Step(Step(s, a[0]), a[1]), a[2]), a[3])
    ensures Run(s, a, t)
  {
    hide Step, Enabled;
    assert a[1..][0] == a[1] && a[2..][0] == a[2] && a[3..][0] == a[3];
    assert a[1..][1..] == a[2..] && a[2..][1..] == a[3..] && a[3..][1..] == [];
    var u := Step(Step(Step(s, a[0]), a[1]), a[2]);
    assert Run(u, a[3..], t);
    assert Run(Step(Step(s, a[0]), a[1]), a[2..], t);
    assert Run(Step(s, a[0]), a[1..], t);
  }

  lemma {:induction false} RunsCompose(s: State, a: seq<Action>, t: State, b: seq<Action>, u: State)
    requires Run(s, a, t) && Run(t, b, u)
    ensures Run(s, a + b, u)
    decreases |a|
  {
    hide Step, Enabled;
    if a == [] {
      assert a + b == b;
    } else {
      assert (a + b)[0] == a[0] && (a + b)[1..] == a[1..] + b;
      RunsCompose(Step(s, a[0]), a[1..], t, b, u);
    }
  }
}
