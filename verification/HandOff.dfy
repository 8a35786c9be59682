/** Handing filter parameters to the audio worker: one task stores them under a mutex and gives a binary semaphore,
    another copies them. Every access to the shared parameters is a step of its own. */
module DspHandOff {

  const DSP_FLOW_COUNT := 6

  type Flow = f: nat | f < DSP_FLOW_COUNT

  /** The four fields in the order in which they are assigned: fc_1, gain_1, fc_3, gain_3. */
  type Params = p: seq<real> | |p| == 4 witness [0.0, 0.0, 0.0, 0.0]

  const ZERO: Params := [0.0, 0.0, 0.0, 0.0]

  type AllFlows = a: seq<Params> | |a| == DSP_FLOW_COUNT witness seq(DSP_FLOW_COUNT, i => ZERO)

  /** all_params. */
  datatype Stored = Stored(active: Flow, params: AllFlows)

  datatype Call =
    | UpdateFilterParams(flow: Flow, params: Params)
    | SetParamsForFlow(flow: Flow, params: Params)
    | SwitchFlow(flow: Flow)

  /** What a call means for the stored parameters. */
  function Meaning(s: Stored, c: Call): Stored {
    match c
    case UpdateFilterParams(f, p) => Stored(f, s.params[f := p])
    case SetParamsForFlow(f, p) => s.(params := s.params[f := p])
    case SwitchFlow(f) => s.(active := f)
  }

  /** The writer inside a call; `done` counts the steps taken.
      Updating: take the mutex, set the active flow, set four fields, give the semaphore, give the mutex.
      Setting: take the mutex, set four fields, give the mutex; take it, look whether the flow is active, give it.
      Switching: take the mutex, set the active flow, capture its parameters, give the mutex. */
  datatype Writer =
    | Quiet
    | Updating(flow: Flow, params: Params, done: nat)
    | Setting(flow: Flow, params: Params, done: nat)
    | Looked(flow: Flow, params: Params, isActive: bool)
    | Switching(flow: Flow, done: nat)
    | Captured(flow: Flow, params: Params)

  /** The worker: between calls; the reads of its first run, made without the mutex; the check of the semaphore;
      waiting for the mutex; copying with it. `done` counts the values read: the flow, then four fields. */
  datatype Worker = Idle | FirstReads(done: nat) | Check | Waiting | Copying(done: nat)

  datatype Owner = Nobody | ByWriter | ByWorker

  datatype State = State(
    stored: Stored,
    writer: Writer,
    owner: Owner,
    given: bool,             // the semaphore
    worker: Worker,
    initialized: bool,
    flow: Flow,              // currentFilterParams
    copy: Params,
    meant: Stored)           // what the calls begun so far mean

  datatype Action = Begin(call: Call) | WriterStep | RunWorker | WorkerStep

  predicate WantsMutex(w: Writer) {
    (w.Updating? || w.Setting? || w.Switching?) && (w.done == 0 || (w.Setting? && w.done == 6))
  }

  predicate Enabled(s: State, a: Action) {
    match a
    case Begin(_) => s.writer.Quiet?
    case WriterStep => !s.writer.Quiet? && (WantsMutex(s.writer) ==> s.owner.Nobody?)
    case RunWorker => s.worker.Idle?
    case WorkerStep => !s.worker.Idle? && (s.worker.Waiting? ==> s.owner.Nobody?)
  }

  function SetField(s: Stored, f: Flow, which: nat, p: Params): Stored {
    if which < 4 then s.(params := s.params[f := s.params[f][which := p[which]]]) else s
  }

  function DoWriter(s: State): State {
    match s.writer
    case Quiet => s
    case Updating(f, p, done) =>
      var t := s.(writer := Updating(f, p, done + 1));
      if done == 0 then t.(owner := ByWriter)
      else if done == 1 then t.(stored := s.stored.(active := f))
      else if done <= 5 then t.(stored := SetField(s.stored, f, done - 2, p))
      else if done == 6 then t.(given := true)
      else s.(owner := Nobody, writer := Quiet)
    case Setting(f, p, done) =>
      var t := s.(writer := Setting(f, p, done + 1));
      if done == 0 || done == 6 then t.(owner := ByWriter)
      else if done <= 4 then t.(stored := SetField(s.stored, f, done - 1, p))
      else if done == 5 then t.(owner := Nobody)
      else s.(writer := Looked(f, p, f == s.stored.active))
    case Looked(f, p, isActive) =>
      s.(owner := Nobody, writer := if isActive then Updating(f, p, 0) else Quiet)
    case Switching(f, done) =>
      if done == 0 then s.(owner := ByWriter, writer := Switching(f, 1))
      else if done == 1 then s.(stored := s.stored.(active := f), writer := Switching(f, 2))
      else s.(writer := Captured(f, s.stored.params[f]))
    case Captured(f, p) =>
      s.(owner := Nobody, writer := Updating(f, p, 0))
  }

  function ReadOne(s: State, done: nat): State {
    if done == 0 then s.(flow := s.stored.active)
    else if done <= 4 then s.(copy := s.copy[done - 1 := s.stored.params[s.stored.active][done - 1]])
    else s
  }

  function DoWorker(s: State): State {
    match s.worker
    case Idle => s
    case FirstReads(done) =>
      if done >= 5 then s.(worker := Check, initialized := true) else ReadOne(s, done).(worker := FirstReads(done + 1))
    case Check => if s.given then s.(given := false, worker := Waiting) else s.(worker := Idle)
    case Waiting => s.(owner := ByWorker, worker := Copying(0))
    case Copying(done) =>
      if done >= 5 then s.(owner := Nobody, worker := Idle) else ReadOne(s, done).(worker := Copying(done + 1))
  }

  function Next(s: State, a: Action): State
    requires Enabled(s, a)
  {
    match a
    case Begin(c) =>
      s.(meant := Meaning(s.meant, c),
         writer := match c
                   case UpdateFilterParams(f, p) => Updating(f, p, 0)
                   case SetParamsForFlow(f, p) => Setting(f, p, 0)
                   case SwitchFlow(f) => Switching(f, 0))
    case WriterStep => DoWriter(s)
    case RunWorker => s.(worker := if s.initialized then Check else FirstReads(0))
    case WorkerStep => DoWorker(s)
  }

  // ----- what every step keeps -----

  /** The semaphore is given, or will be before the writer's call is over. */
  predicate Noticed(s: State) {
    s.given ||
    match s.writer
    case Quiet => false
    case Updating(_, _, done) => done <= 6
    case Setting(f, _, _) => f == s.stored.active
    case Looked(_, _, isActive) => isActive
    case Switching(_, _) => true
    case Captured(_, _) => true
  }

  predicate FieldsSet(s: Stored, f: Flow, p: Params, n: int) {
    forall k :: 0 <= k < n && k < 4 ==> s.params[f][k] == p[k]
  }

  /** The writer holds the mutex where it should, has stored what it should have by now, and ends up with what its
      call means. */
  predicate WriterFits(s: State) {
    match s.writer
    case Quiet => !s.owner.ByWriter? && s.stored == s.meant
    case Updating(f, p, done) =>
      && done <= 7 && s.owner.ByWriter? == (done > 0)
      && s.meant == Stored(f, s.stored.params[f := p])
      && (done > 1 ==> s.stored.active == f) && FieldsSet(s.stored, f, p, done - 2)
    case Setting(f, p, done) =>
      && done <= 7 && s.owner.ByWriter? == (0 < done <= 5 || done == 7)
      && s.meant == s.stored.(params := s.stored.params[f := p])
      && FieldsSet(s.stored, f, p, done - 1)
    case Looked(f, p, isActive) =>
      s.owner.ByWriter? && s.meant == s.stored && isActive == (f == s.stored.active) && p == s.stored.params[f]
    case Switching(f, done) =>
      && done <= 2 && s.owner.ByWriter? == (done > 0)
      && s.meant == s.stored.(active := f) && (done > 1 ==> s.stored.active == f)
    case Captured(f, p) =>
      s.owner.ByWriter? && s.meant == s.stored && s.stored.active == f && p == s.stored.params[f]
  }

  /** The first `done` values of the copy are the stored ones of the active flow. */
  predicate CopiedSoFar(s: State, done: nat) {
    && (done > 0 ==> s.flow == s.stored.active)
    && forall k :: 0 <= k < done - 1 && k < 4 ==> s.copy[k] == s.stored.params[s.stored.active][k]
  }

  predicate WorkerFits(s: State) {
    match s.worker
    case Idle => !s.owner.ByWorker? && (s.initialized ==> Noticed(s) || CopiedSoFar(s, 5))
    case FirstReads(done) => !s.owner.ByWorker? && done <= 5 && (Noticed(s) || CopiedSoFar(s, done))
    case Check => !s.owner.ByWorker? && s.initialized && (Noticed(s) || CopiedSoFar(s, 5))
    case Waiting => !s.owner.ByWorker? && s.initialized
    case Copying(done) => s.owner.ByWorker? && s.initialized && done <= 5 && CopiedSoFar(s, done)
  }

  lemma AllFieldsSet(s: Stored, f: Flow, p: Params)
    requires FieldsSet(s, f, p, 4)
    ensures s.params[f] == p && s.params[f := p] == s.params
  {
  }

  lemma SetFieldStep(s: Stored, f: Flow, p: Params, n: nat)
    requires FieldsSet(s, f, p, n) && n < 4
    ensures var t := SetField(s, f, n, p);
      FieldsSet(t, f, p, n + 1) && t.active == s.active && t.params[f := p] == s.params[f := p]
    ensures f != s.active ==> SetField(s, f, n, p).params[s.active] == s.params[s.active]
  {
  }

  lemma WriterStepFits(s: State)
    requires WriterFits(s) && Enabled(s, WriterStep)
    ensures WriterFits(DoWriter(s))
  {
    hide SetField, FieldsSet;
    match s.writer {
      case Updating(f, p, done) =>
        if 2 <= done <= 5 { SetFieldStep(s.stored, f, p, done - 2); }
        if done == 1 { NoFieldsSet(s.stored.(active := f), f, p); }
        if done == 0 { NoFieldsSet(s.stored, f, p); }
        if done >= 6 {
          FourAreAll(s.stored, f, p, done - 2);
          AllFieldsSet(s.stored, f, p);
          FourAreAll(s.stored, f, p, done - 1);
        }
      case Setting(f, p, done) =>
        if 1 <= done <= 4 { SetFieldStep(s.stored, f, p, done - 1); }
        if done == 0 { NoFieldsSet(s.stored, f, p); }
        if done >= 5 {
          FourAreAll(s.stored, f, p, done - 1);
          AllFieldsSet(s.stored, f, p);
          FourAreAll(s.stored, f, p, done);
        }
      case Looked(f, p, _) =>
        NoFieldsSet(s.stored, f, p);
        assert s.stored.params[f := p] == s.stored.params;
      case Captured(f, p) =>
        NoFieldsSet(s.stored, f, p);
        assert s.stored.params[f := p] == s.stored.params;
      case _ =>
    }
  }

  lemma NoFieldsSet(s: Stored, f: Flow, p: Params)
    ensures FieldsSet(s, f, p, -2) && FieldsSet(s, f, p, -1) && FieldsSet(s, f, p, 0)
  {
  }

  lemma FourAreAll(s: Stored, f: Flow, p: Params, n: nat)
    requires n >= 4
    ensures FieldsSet(s, f, p, n) <==> FieldsSet(s, f, p, 4)
  {
  }

  /** A change of what the active flow has stored is noticed, and is not made while the worker copies. */
  lemma WriterStepIsNoticed(s: State)
    requires WriterFits(s) && WorkerFits(s) && Enabled(s, WriterStep)
    ensures WorkerFits(DoWriter(s))
  {
    hide SetField, FieldsSet;
    if s.writer.Setting? && 1 <= s.writer.done <= 4 {
      SetFieldStep(s.stored, s.writer.flow, s.writer.params, s.writer.done - 1);
    }
    if s.writer.Updating? && 2 <= s.writer.done <= 5 {
      SetFieldStep(s.stored, s.writer.flow, s.writer.params, s.writer.done - 2);
    }
  }

  lemma WorkerStepFits(s: State)
    requires WriterFits(s) && WorkerFits(s) && Enabled(s, WorkerStep)
    ensures WriterFits(DoWorker(s)) && WorkerFits(DoWorker(s))
  {
    hide ReadOne, CopiedSoFar, FieldsSet;
    var t := DoWorker(s);
    SameCopy(s, t, 5);
    match s.worker {
      case FirstReads(done) =>
        ReadOneCopies(s, done);
        SameCopy(ReadOne(s, done), t, done + 1);
      case Waiting =>
        NothingCopied(t);
      case Copying(done) =>
        ReadOneCopies(s, done);
        SameCopy(ReadOne(s, done), t, done + 1);
      case _ =>
    }
  }

  lemma ReadOneCopies(s: State, done: nat)
    ensures var t := ReadOne(s, done);
      && t == s.(flow := t.flow, copy := t.copy)
      && (CopiedSoFar(s, done) && done < 5 ==> CopiedSoFar(t, done + 1))
  {
  }

  lemma NothingCopied(s: State)
    ensures CopiedSoFar(s, 0)
  {
  }

  /** How much is copied depends on the stored parameters and the copy only. */
  lemma SameCopy(s: State, t: State, n: nat)
    ensures t.stored == s.stored && t.flow == s.flow && t.copy == s.copy ==> CopiedSoFar(t, n) == CopiedSoFar(s, n)
  {
  }

  lemma StepFits(s: State, a: Action)
    requires WriterFits(s) && WorkerFits(s) && Enabled(s, a)
    ensures WriterFits(Next(s, a)) && WorkerFits(Next(s, a))
  {
    hide DoWriter, DoWorker;
    match a {
      case Begin(c) =>
      case WriterStep => WriterStepFits(s); WriterStepIsNoticed(s);
      case RunWorker =>
      case WorkerStep => WorkerStepFits(s);
    }
  }

  // ----- runs -----

  /** After dsp_processor_init: whatever is stored, the worker has not run. */
  predicate Initial(s: State) {
    s.writer.Quiet? && s.owner.Nobody? && !s.given && s.worker.Idle? && !s.initialized && s.meant == s.stored
  }

  predicate Run(s: State, actions: seq<Action>, t: State)
    decreases |actions|
  {
    if actions == [] then t == s else Enabled(s, actions[0]) && Run(Next(s, actions[0]), actions[1..], t)
  }

  lemma {:induction false} RunFits(s: State, actions: seq<Action>, t: State)
    requires WriterFits(s) && WorkerFits(s) && Run(s, actions, t)
    ensures WriterFits(t) && WorkerFits(t)
    decreases |actions|
  {
    hide WriterFits, WorkerFits, Next, Enabled;
    if actions != [] {
      StepFits(s, actions[0]);
      RunFits(Next(s, actions[0]), actions[1..], t);
    }
  }

  /** The stored parameters after all calls begun so far, in order. */
  function Meanings(s: Stored, actions: seq<Action>): Stored
    decreases |actions|
  {
    if actions == [] then s
    else Meanings(if actions[0].Begin? then Meaning(s, actions[0].call) else s, actions[1..])
  }

  lemma {:induction false} RunMeans(s: State, actions: seq<Action>, t: State)
    requires Run(s, actions, t)
    ensures t.meant == Meanings(s.meant, actions)
    decreases |actions|
  {
    hide Enabled, Meaning;
    if actions != [] {
      RunMeans(Next(s, actions[0]), actions[1..], t);
    }
  }

  /** The flow named by the last call that makes one active, or else the one active at the start. */
  function LastFlow(start: Flow, actions: seq<Action>): Flow {
    if actions == [] then start else
      var (a, before) := (actions[|actions| - 1], LastFlow(start, actions[..|actions| - 1]));
      if a.Begin? && (a.call.UpdateFilterParams? || a.call.SwitchFlow?) then a.call.flow else before
  }

  /** The parameters given by the last call that sets those of a flow, or else the ones it started with. */
  function LastParams(start: Params, flow: Flow, actions: seq<Action>): Params {
    if actions == [] then start else
      var (a, before) := (actions[|actions| - 1], LastParams(start, flow, actions[..|actions| - 1]));
      if a.Begin? && (a.call.UpdateFilterParams? || a.call.SetParamsForFlow?) && a.call.flow == flow then a.call.params
      else before
  }

  lemma {:induction false} MeaningsAppended(s: Stored, actions: seq<Action>, a: Action)
    ensures Meanings(s, actions + [a])
         == if a.Begin? then Meaning(Meanings(s, actions), a.call) else Meanings(s, actions)
    decreases |actions|
  {
    hide Meaning;
    if actions == [] {
      assert [a][1..] == [] && [] + [a] == [a];
    } else {
      assert (actions + [a])[0] == actions[0] && (actions + [a])[1..] == actions[1..] + [a];
      MeaningsAppended(if actions[0].Begin? then Meaning(s, actions[0].call) else s, actions[1..], a);
    }
  }

  /** What all calls mean together: the last write wins, flow by flow. */
  lemma {:induction false} LastWriteWins(s: Stored, actions: seq<Action>)
    ensures Meanings(s, actions).active == LastFlow(s.active, actions)
    ensures forall f: Flow :: Meanings(s, actions).params[f] == LastParams(s.params[f], f, actions)
  {
    if actions != [] {
      var (before, a) := (actions[..|actions| - 1], actions[|actions| - 1]);
      assert before + [a] == actions;
      LastWriteWins(s, before);
      MeaningsAppended(s, before, a);
      hide Meanings;
    }
  }

  /** Whenever no call is under way and no notification is pending, the worker, once it has run, holds the parameters
      last set for the flow last made active; and so it is for what is stored for every flow. */
  lemma WorkerCatchesUp(s: State, actions: seq<Action>, t: State)
    requires Initial(s) && Run(s, actions, t)
    requires t.writer.Quiet? && t.worker.Idle? && !t.given && t.initialized
    ensures t.stored.active == LastFlow(s.stored.active, actions)
    ensures forall f: Flow :: t.stored.params[f] == LastParams(s.stored.params[f], f, actions)
    ensures t.flow == t.stored.active && t.copy == t.stored.params[t.stored.active]
  {
    RunFits(s, actions, t);
    RunMeans(s, actions, t);
    LastWriteWins(s.stored, actions);
  }

  // ----- progress -----

  /** Neither task waits for ever: whoever is inside a call can take a step, unless the other one has the mutex and can
      take a step. */
  lemma NobodyIsStuck(s: State, actions: seq<Action>, t: State)
    requires Initial(s) && Run(s, actions, t)
    ensures !t.writer.Quiet? ==> Enabled(t, WriterStep) || (t.owner.ByWorker? && Enabled(t, WorkerStep))
    ensures !t.worker.Idle? ==> Enabled(t, WorkerStep) || (t.owner.ByWriter? && Enabled(t, WriterStep))
  {
    RunFits(s, actions, t);
  }

  /** How many steps the worker has yet to take, at most. */
  function StepsLeft(w: Worker): nat {
    match w
    case Idle => 0
    case Copying(done) => if done <= 5 then 6 - done else 1
    case Waiting => 7
    case Check => 8
    case FirstReads(done) => if done <= 5 then 14 - done else 9
  }

  /** One run of the worker, while no call is under way, is enough: it ends after at most 15 steps, with no notification
      pending and the copy right. */
  lemma OneRunSuffices(s: State, actions: seq<Action>, t: State) returns (steps: seq<Action>, u: State)
    requires Initial(s) && Run(s, actions, t) && t.writer.Quiet? && t.worker.Idle?
    ensures Run(t, [RunWorker] + steps, u) && |steps| <= 14 && (forall a :: a in steps ==> a == WorkerStep)
    ensures u.worker.Idle? && !u.given && u.stored == t.stored
    ensures u.flow == t.stored.active && u.copy == t.stored.params[t.stored.active]
  {
    RunFits(s, actions, t);
    steps, u := WorkerAlone(Next(t, RunWorker));
    assert ([RunWorker] + steps)[0] == RunWorker && ([RunWorker] + steps)[1..] == steps;
  }

  lemma {:induction false} WorkerAlone(s: State) returns (steps: seq<Action>, u: State)
    requires WriterFits(s) && WorkerFits(s) && s.writer.Quiet?
    requires (s.worker.Idle? ==> s.initialized) && (s.worker.FirstReads? || s.worker.Check? || !s.given)
    ensures Run(s, steps, u) && |steps| <= StepsLeft(s.worker) && (forall a :: a in steps ==> a == WorkerStep)
    ensures u.worker.Idle? && !u.given && u.stored == s.stored
    ensures u.flow == s.stored.active && u.copy == s.stored.params[s.stored.active]
    decreases StepsLeft(s.worker)
  {
    if s.worker.Idle? {
      steps, u := [], s;
    } else {
      WorkerStepFits(s);
      StepLeft(s);
      hide WriterFits, WorkerFits, CopiedSoFar, DoWorker;
      var later;
      later, u := WorkerAlone(DoWorker(s));
      steps := [WorkerStep] + later;
      assert steps[1..] == later;
    }
  }

  lemma StepLeft(s: State)
    requires WriterFits(s) && WorkerFits(s) && s.writer.Quiet? && !s.worker.Idle?
    requires s.worker.FirstReads? || s.worker.Check? || !s.given
    ensures Enabled(s, WorkerStep)
    ensures var t := DoWorker(s);
      && StepsLeft(t.worker) < StepsLeft(s.worker) && t.stored == s.stored && t.writer == s.writer
      && (t.worker.Idle? ==> t.initialized) && (t.worker.FirstReads? || t.worker.Check? || !t.given)
  {
  }
}

/** Handing the DAC state to dac_control_task: any number of tasks change it under a mutex and
    overwrite a queue of one element. */
module DacHandOff {
  import opened Wire

  datatype Dac = Dac(mute: bool, volume: int, enabled: bool)

  datatype Change = SetMute(mute: bool) | SetVolume(volume: int) | Enable(enabled: bool)

  function Changed(d: Dac, c: Change): Dac {
    match c
    case SetMute(m) => d.(mute := m)
    case SetVolume(v) => d.(volume := v)
    case Enable(e) => d.(enabled := e)
  }

  /** The setter that holds the mutex: about to compare; about to overwrite the queue; about to leave. */
  datatype Setter = Free | Comparing(change: Change) | Sending | Leaving

  /** The control task: waiting; or with a received state of which the first `done` fields are applied. */
  datatype Task = Waiting | Applying(state: Dac, done: nat)

  datatype State = State(
    data: Dac,            // audioDAC_data
    setter: Setter,
    queue: Option<Dac>,
    task: Task,
    applied: Dac,         // dac_data_old
    hardware: Dac)

  datatype Action = Enter(change: Change) | SetterStep | Receive | TaskStep

  predicate Enabled(s: State, a: Action) {
    match a
    case Enter(_) => s.setter.Free?
    case SetterStep => !s.setter.Free?
    case Receive => s.task.Waiting? && s.queue.Some?
    case TaskStep => s.task.Applying?
  }

  function Next(s: State, a: Action): State
    requires Enabled(s, a)
  {
    match a
    case Enter(c) => s.(setter := Comparing(c))
    case SetterStep =>
      (match s.setter
       case Comparing(c) =>
         if Changed(s.data, c) != s.data then s.(data := Changed(s.data, c), setter := Sending) else s.(setter := Leaving)
       case Sending => s.(queue := Some(s.data), setter := Leaving)
       case _ => s.(setter := Free))
    case Receive => s.(task := Applying(s.queue.value, 0), queue := None)
    case TaskStep =>
      var (d, was, h) := (s.task.state, s.applied, s.hardware);
      if s.task.done == 0 then
        s.(hardware := if d.mute != was.mute then h.(mute := d.mute) else h, task := Applying(d, 1))
      else if s.task.done == 1 then
        s.(hardware := if d.volume != was.volume then h.(volume := d.volume) else h, task := Applying(d, 2))
      else if s.task.done == 2 then
        s.(hardware := if d.enabled != was.enabled then h.(enabled := d.enabled) else h, task := Applying(d, 3))
      else s.(applied := d, task := Waiting)
  }

  const POWER_ON := Dac(true, -1, false)

  const INITIAL := State(POWER_ON, Free, None, Waiting, POWER_ON, POWER_ON)

  /** The newest state under way is the stored one, unless it is about to be sent; the hardware follows. */
  predicate Fits(s: State) {
    && (!s.setter.Sending? ==>
          s.data == if s.queue.Some? then s.queue.value else if s.task.Applying? then s.task.state else s.applied)
    && (match s.task
        case Waiting => s.hardware == s.applied
        case Applying(d, done) =>
          && done <= 3
          && s.hardware.mute == (if done > 0 then d.mute else s.applied.mute)
          && s.hardware.volume == (if done > 1 then d.volume else s.applied.volume)
          && s.hardware.enabled == (if done > 2 then d.enabled else s.applied.enabled))
  }

  predicate Run(s: State, actions: seq<Action>, t: State)
    decreases |actions|
  {
    if actions == [] then t == s else Enabled(s, actions[0]) && Run(Next(s, actions[0]), actions[1..], t)
  }

  /** The state that the changes so far ask for, in the order in which their setters got the mutex. */
  function Changes(d: Dac, actions: seq<Action>): Dac
    decreases |actions|
  {
    if actions == [] then d
    else Changes(if actions[0].Enter? then Changed(d, actions[0].change) else d, actions[1..])
  }

  function Wanted(s: State): Dac {
    if s.setter.Comparing? then Changed(s.data, s.setter.change) else s.data
  }

  lemma {:induction false} RunFits(s: State, actions: seq<Action>, t: State)
    requires Fits(s) && Run(s, actions, t)
    ensures Fits(t) && Wanted(t) == Changes(Wanted(s), actions)
    decreases |actions|
  {
    if actions != [] {
      RunFits(Next(s, actions[0]), actions[1..], t);
    }
  }

  /** The last argument of audio_set_mute, or else the state at power-on; likewise for volume and enabling. */
  function LastMute(actions: seq<Action>): bool {
    if actions == [] then true else
      var a := actions[|actions| - 1];
      if a.Enter? && a.change.SetMute? then a.change.mute else LastMute(actions[..|actions| - 1])
  }

  function LastVolume(actions: seq<Action>): int {
    if actions == [] then -1 else
      var a := actions[|actions| - 1];
      if a.Enter? && a.change.SetVolume? then a.change.volume else LastVolume(actions[..|actions| - 1])
  }

  function LastEnabled(actions: seq<Action>): bool {
    if actions == [] then false else
      var a := actions[|actions| - 1];
      if a.Enter? && a.change.Enable? then a.change.enabled else LastEnabled(actions[..|actions| - 1])
  }

  lemma {:induction false} ChangesAppended(d: Dac, actions: seq<Action>, a: Action)
    ensures Changes(d, actions + [a]) == if a.Enter? then Changed(Changes(d, actions), a.change) else Changes(d, actions)
    decreases |actions|
  {
    hide Changed;
    if actions == [] {
      assert [a][1..] == [] && [] + [a] == [a];
    } else {
      assert (actions + [a])[0] == actions[0] && (actions + [a])[1..] == actions[1..] + [a];
      ChangesAppended(if actions[0].Enter? then Changed(d, actions[0].change) else d, actions[1..], a);
    }
  }

  /** What all changes ask for together: the last write wins, field by field. */
  lemma {:induction false} LastWriteWins(actions: seq<Action>)
    ensures Changes(POWER_ON, actions) == Dac(LastMute(actions), LastVolume(actions), LastEnabled(actions))
  {
    if actions != [] {
      var (before, a) := (actions[..|actions| - 1], actions[|actions| - 1]);
      assert before + [a] == actions;
      LastWriteWins(before);
      ChangesAppended(POWER_ON, before, a);
      hide Changes;
    }
  }

  /** With the queue empty, dac_control_task waiting and no setter inside, what is stored, what was applied last, and the
      hardware are what was asked for last, field by field. */
  lemma DacCatchesUp(actions: seq<Action>, t: State)
    requires Run(INITIAL, actions, t)
    requires t.queue.None? && t.task.Waiting? && t.setter.Free?
    ensures t.applied == t.data == t.hardware
    ensures t.hardware.mute == LastMute(actions)
    ensures t.hardware.volume == LastVolume(actions)
    ensures t.hardware.enabled == LastEnabled(actions)
  {
    RunFits(INITIAL, actions, t);
    LastWriteWins(actions);
  }

  // ----- progress -----

  /** How many steps are yet to be taken, at most, with no further calls. */
  function Left(s: State): nat {
    (match s.setter case Free => 0 case Comparing(_) => 3 case Sending => 2 case Leaving => 1)
    + (if s.queue.Some? || s.setter.Comparing? || s.setter.Sending? then 5 else 0)
    + (if s.task.Waiting? then 0 else if s.task.done <= 3 then 4 - s.task.done else 1)
  }

  /** A setter that has entered leaves after at most three steps, and the task applies what it received in four, so with
      no further calls all is applied after at most twelve steps. */
  lemma {:induction false} CatchesUpAlone(s: State) returns (steps: seq<Action>, t: State)
    requires Fits(s)
    ensures Run(s, steps, t) && |steps| <= Left(s) <= 12 && (forall a :: a in steps ==> !a.Enter?)
    ensures t.queue.None? && t.task.Waiting? && t.setter.Free?
    decreases Left(s)
  {
    if s.queue.None? && s.task.Waiting? && s.setter.Free? {
      steps, t := [], s;
    } else {
      var a := if !s.setter.Free? then SetterStep else if s.task.Applying? then TaskStep else Receive;
      var later;
      later, t := CatchesUpAlone(Next(s, a));
      steps := [a] + later;
      assert steps[1..] == later;
    }
  }
}
