/** Publishing the filter's offset, drift and time stamp to the player task: two tasks, one mutex with try-locks
    that may fail, and the reader's own copies for when its try-lock fails. */
module LatencySnapshots {
  import opened TimeFilters

  datatype Triple = Triple(offset: real, drift: real, lastUpdate: int)

  const ZERO := Triple(0.0, 0.0, 0)

  /** What is published for a filter state. */
  function Published(f: Filter): Triple {
    Triple(if f.Empty? then 0.0 else f.offset, EffectiveDrift(f), LastUpdate(f))
  }

  function Extrapolated(t: Triple, now: int): int {
    Project(t.offset, t.drift, now - t.lastUpdate)
  }

  /** Extrapolating what was published for a filter state is asking the filter. */
  lemma ExtrapolationIsOffsetAt(f: Filter, now: int)
    ensures Extrapolated(Published(f), now) == OffsetAt(f, now)
  {
    hide Project;
  }

  // The inserting and resetting side: idle; holding the values to publish, before its try-lock; or inside the
  // critical section, with the first `written` of the three variables assigned.
  datatype Writer = Idle | Captured(local: Triple) | Writing(local: Triple, written: nat)

  // The reading side: idle; inside the critical section; or there with `stored` of its copies renewed. The
  // view is the filter when the lock was taken, if the latest insert or reset had then been published.
  datatype Reader = Outside | Holding(now: int, view: View) | Storing(now: int, view: View, result: int, stored: nat)

  datatype View = Stale | Current(filter: Filter)

  datatype State = State(
    filter: Filter,
    shared: Triple,           // latencyToServer, latencyDrift, latencyLastUpdate
    writer: Writer,
    reader: Reader,
    copy: Triple,             // lastDiff, lastDrift, lastLastUpdate
    results: seq<Result>,     // what the reads so far returned
    log: seq<Triple>,         // every triple published or reset so far, whole
    current: bool)            // the latest insert or reset got the lock

  /** A read that returned `value` for time `now`; Stale unless it got the lock after a successful publish. */
  datatype Result = Result(now: int, value: int, view: View, source: Triple)

  datatype Action =
    | InsertMeasurement(m: Measurement)
    | ResetFilter
    | WriterTakes
    | WriterGivesUp
    | WriteOne
    | WriterReleases
    | ReaderTakes(readNow: int)
    | ReaderFails(failNow: int)
    | ComputeResult
    | StoreOne
    | ReaderReleases

  predicate LockFree(s: State) {
    !s.writer.Writing? && s.reader.Outside?
  }

  function Assign(t: Triple, from: Triple, which: nat): Triple {
    if which == 0 then t.(offset := from.offset)
    else if which == 1 then t.(drift := from.drift)
    else t.(lastUpdate := from.lastUpdate)
  }

  predicate Enabled(s: State, a: Action) {
    match a
    case InsertMeasurement(_) => s.writer.Idle?
    case ResetFilter => s.writer.Idle?
    case WriterTakes => s.writer.Captured? && LockFree(s)
    case WriterGivesUp => s.writer.Captured?
    case WriteOne => s.writer.Writing? && s.writer.written < 3
    case WriterReleases => s.writer.Writing? && s.writer.written == 3
    case ReaderTakes(_) => s.reader.Outside? && LockFree(s)
    case ReaderFails(_) => s.reader.Outside?
    case ComputeResult => s.reader.Holding?
    case StoreOne => s.reader.Storing? && s.reader.stored < 3
    case ReaderReleases => s.reader.Storing? && s.reader.stored == 3
  }

  function Next(s: State, c: Settings, a: Action): State
    requires Enabled(s, a) && Usable(c) && Healthy(s.filter)
  {
    match a
    case InsertMeasurement(m) =>
      var f := Step(s.filter, c, m);
      s.(filter := f, writer := Captured(Published(f)), current := false)
    case ResetFilter =>
      s.(filter := Filter.Empty, writer := Captured(ZERO), current := false)
    case WriterTakes =>
      s.(writer := Writing(s.writer.local, 0))
    case WriterGivesUp =>
      s.(writer := Writer.Idle)
    case WriteOne =>
      s.(shared := Assign(s.shared, s.writer.local, s.writer.written),
         writer := Writing(s.writer.local, s.writer.written + 1))
    case WriterReleases =>
      s.(writer := Writer.Idle, log := s.log + [s.writer.local], current := true)
    case ReaderTakes(now) =>
      s.(reader := Holding(now, if s.current then Current(s.filter) else Stale))
    case ReaderFails(now) =>
      s.(results := s.results + [Result(now, Extrapolated(s.copy, now), Stale, s.copy)])
    case ComputeResult =>
      s.(reader := Storing(s.reader.now, s.reader.view, Extrapolated(s.shared, s.reader.now), 0))
    case StoreOne =>
      s.(copy := Assign(s.copy, s.shared, 2 - s.reader.stored),
         reader := s.reader.(stored := s.reader.stored + 1))
    case ReaderReleases =>
      s.(reader := Outside, results := s.results + [Result(s.reader.now, s.reader.result, s.reader.view, s.shared)])
  }

  const INITIAL := State(Filter.Empty, ZERO, Writer.Idle, Outside, ZERO, [], [ZERO], true)

  ghost function Latest(s: State): Triple
    requires s.log != []
  {
    s.log[|s.log| - 1]
  }

  /** The value that the variable number `which` should have while the first `done` are overwritten. */
  ghost predicate Partly(t: Triple, before: Triple, after: Triple, done: nat) {
    && t.offset == (if done > 0 then after.offset else before.offset)
    && t.drift == (if done > 1 then after.drift else before.drift)
    && t.lastUpdate == (if done > 2 then after.lastUpdate else before.lastUpdate)
  }

  /** A value lies on the line of a triple, to half a microsecond. */
  ghost predicate OnLine(value: int, t: Triple, now: int) {
    -0.5 <= value as real - (t.offset + t.drift * (now - t.lastUpdate) as real) <= 0.5
  }

  lemma ExtrapolatedIsOnLine(t: Triple, now: int)
    ensures OnLine(Extrapolated(t, now), t, now)
  {
    ProjectIsNearest(t.offset, t.drift, now - t.lastUpdate, (now - t.lastUpdate) as real);
    hide Project;
  }

  /** Every returned value lies on the line of one whole past triple; a read that got the lock after the latest insert
      or reset had been published uses what the filter had published, and returns what the filter itself answers. */
  ghost predicate ResultsAreWhole(s: State) {
    forall r :: r in s.results ==>
      && r.source in s.log
      && OnLine(r.value, r.source, r.now)
      && (r.view.Current? ==> r.source == Published(r.view.filter) && r.value == OffsetAt(r.view.filter, r.now))
  }

  ghost predicate Consistent(s: State) {
    && Healthy(s.filter)
    && s.log != []
    && !(s.writer.Writing? && !s.reader.Outside?)
    && (if s.writer.Writing? then s.writer.written <= 3 && Partly(s.shared, Latest(s), s.writer.local, s.writer.written)
        else s.shared == Latest(s))
    && (!s.writer.Idle? ==> s.writer.local == Published(s.filter) && !s.current)
    && (s.current ==> Latest(s) == Published(s.filter))
    && (match s.reader
        case Outside => s.copy in s.log
        case Holding(_, view) => s.copy in s.log && (view.Current? ==> s.shared == Published(view.filter))
        case Storing(now, view, result, stored) =>
          && (view.Current? ==> s.shared == Published(view.filter))
          && result == Extrapolated(s.shared, now)
          && stored <= 3
          && (stored > 0 ==> s.copy.lastUpdate == s.shared.lastUpdate)
          && (stored > 1 ==> s.copy.drift == s.shared.drift)
          && (stored > 2 ==> s.copy.offset == s.shared.offset))
    && ResultsAreWhole(s)
  }

  lemma StepKeepsConsistency(s: State, c: Settings, a: Action)
    requires Usable(c) && Consistent(s) && Enabled(s, a)
    ensures Consistent(Next(s, c, a))
  {
    hide Extrapolated, Step, Healthy, EffectiveDrift, OffsetAt, OnLine;
    var t := Next(s, c, a);
    if a.ReaderFails? {
      ExtrapolatedIsOnLine(s.copy, a.failNow);
    }
    if a.WriterReleases? {
      assert t.shared == s.writer.local;
      assert Latest(t) == s.writer.local;
      assert forall x :: x in s.log ==> x in t.log;
    } else if a.ReaderReleases? {
      assert s.copy == s.shared;
      assert Latest(s) in s.log;
      ExtrapolatedIsOnLine(s.shared, s.reader.now);
      if s.reader.view.Current? {
        ExtrapolationIsOffsetAt(s.reader.view.filter, s.reader.now);
      }
    } else if a.ResetFilter? {
      PublishedOfEmpty();
    }
  }

  lemma PublishedOfEmpty()
    ensures Published(Filter.Empty) == ZERO && Healthy(Filter.Empty)
  {
  }

  // ----- runs -----

  ghost predicate Run(s: State, c: Settings, actions: seq<Action>, t: State)
    requires Usable(c)
    decreases |actions|
  {
    if actions == [] then t == s
    else Enabled(s, actions[0]) && Healthy(s.filter) && Run(Next(s, c, actions[0]), c, actions[1..], t)
  }

  lemma {:induction false} RunKeepsConsistency(s: State, c: Settings, actions: seq<Action>, t: State)
    requires Usable(c) && Consistent(s) && Run(s, c, actions, t)
    ensures Consistent(t)
    decreases |actions|
  {
    if actions != [] {
      StepKeepsConsistency(s, c, actions[0]);
      RunKeepsConsistency(Next(s, c, actions[0]), c, actions[1..], t);
    }
  }

  /** Under every interleaving, every read is whole, and a locked read of a published state is the filter's. */
  lemma EveryReadIsWhole(c: Settings, actions: seq<Action>, t: State)
    requires Usable(c) && Run(INITIAL, c, actions, t)
    ensures ResultsAreWhole(t)
  {
    PublishedOfEmpty();
    RunKeepsConsistency(INITIAL, c, actions, t);
  }

  // ----- publishing and reading without interference -----

  /** An insertion that gets the lock publishes the filter's new state. */
  lemma PublicationSucceeds(s: State, c: Settings, m: Measurement) returns (t: State)
    requires Usable(c) && Consistent(s) && s.writer.Idle? && s.reader.Outside?
    ensures Run(s, c, [InsertMeasurement(m), WriterTakes, WriteOne, WriteOne, WriteOne, WriterReleases], t)
    ensures Consistent(t) && t.writer.Idle? && t.reader.Outside? && t.current && t.results == s.results
    ensures t.filter == Step(s.filter, c, m) && t.shared == Published(t.filter) && t.log == s.log + [t.shared]
  {
    hide Step, Healthy, Published, Consistent;
    t := WriterAlone(s, c, m);
    RunKeepsConsistency(s, c, [InsertMeasurement(m), WriterTakes, WriteOne, WriteOne, WriteOne, WriterReleases], t);
  }

  lemma WriterAlone(s: State, c: Settings, m: Measurement) returns (t: State)
    requires Usable(c) && Consistent(s) && s.writer.Idle? && s.reader.Outside?
    ensures Run(s, c, [InsertMeasurement(m), WriterTakes, WriteOne, WriteOne, WriteOne, WriterReleases], t)
    ensures t.writer.Idle? && t.reader.Outside? && t.current && t.results == s.results
    ensures t.filter == Step(s.filter, c, m) && t.shared == Published(t.filter) && t.log == s.log + [t.shared]
  {
    hide Step, Healthy, Published;
    var f := Step(s.filter, c, m);
    var s1 := Next(s, c, InsertMeasurement(m));
    var s2 := Next(s1, c, WriterTakes);
    var s3 := Next(s2, c, WriteOne);
    var s4 := Next(s3, c, WriteOne);
    var s5 := Next(s4, c, WriteOne);
    t := Next(s5, c, WriterReleases);
    assert s5.shared == Published(f);
    assert Run(t, c, [], t);
    assert Run(s5, c, [WriterReleases], t);
    assert Run(s4, c, [WriteOne, WriterReleases], t);
    assert Run(s3, c, [WriteOne, WriteOne, WriterReleases], t);
    assert Run(s2, c, [WriteOne, WriteOne, WriteOne, WriterReleases], t);
    assert Run(s1, c, [WriterTakes, WriteOne, WriteOne, WriteOne, WriterReleases], t);
  }

  /** A read that gets the lock after it returns the filter's own answer, and keeps what it read for later. */
  lemma ReadSucceeds(s: State, c: Settings, now: int) returns (t: State)
    requires Usable(c) && Consistent(s) && s.writer.Idle? && s.reader.Outside? && s.current
    ensures Run(s, c, [ReaderTakes(now), ComputeResult, StoreOne, StoreOne, StoreOne, ReaderReleases], t)
    ensures t.results == s.results + [Result(now, OffsetAt(s.filter, now), Current(s.filter), Published(s.filter))]
    ensures t.copy == Published(s.filter)
  {
    hide Step, Healthy, Published, Extrapolated;
    ExtrapolationIsOffsetAt(s.filter, now);
    var s1 := Next(s, c, ReaderTakes(now));
    var s2 := Next(s1, c, ComputeResult);
    var s3 := Next(s2, c, StoreOne);
    var s4 := Next(s3, c, StoreOne);
    var s5 := Next(s4, c, StoreOne);
    t := Next(s5, c, ReaderReleases);
    assert s5.copy == Published(s.filter);
    assert Run(t, c, [], t);
    assert Run(s5, c, [ReaderReleases], t);
    assert Run(s4, c, [StoreOne, ReaderReleases], t);
    assert Run(s3, c, [StoreOne, StoreOne, ReaderReleases], t);
    assert Run(s2, c, [StoreOne, StoreOne, StoreOne, ReaderReleases], t);
    assert Run(s1, c, [ComputeResult, StoreOne, StoreOne, StoreOne, ReaderReleases], t);
  }

  // ----- exact measurements -----

  /** All measurements of the run report an affine offset a + b * t exactly. */
  ghost predicate ExactActions(actions: seq<Action>, a: real, b: real) {
    forall x :: x in actions && x.InsertMeasurement? ==> Exact(x.m, a, b) && x.m.maxError >= 0
  }

  /** A triple published under exact measurements, or that of a reset. */
  ghost predicate OnTruth(t: Triple, a: real, b: real) {
    t == ZERO || (t.offset == a + b * t.lastUpdate as real && (t.drift == b || t.drift == 0.0))
  }

  ghost predicate AllOnTruth(s: State, a: real, b: real) {
    && Tracks(s.filter, a, b) && DriftAwaitsSecond(s.filter)
    && (!s.writer.Idle? ==> OnTruth(s.writer.local, a, b))
    && forall t :: t in s.log ==> OnTruth(t, a, b)
  }

  lemma FilterStaysOnTruth(f: Filter, c: Settings, m: Measurement, a: real, b: real)
    requires Healthy(f) && Usable(c) && c.adaptiveCutoff >= 0.0 && Exact(m, a, b) && m.maxError >= 0
    requires Tracks(f, a, b) && DriftAwaitsSecond(f)
    ensures var g := Step(f, c, m);
      && Tracks(g, a, b) && DriftAwaitsSecond(g)
      && (g.Running? ==> OnTruth(Published(g), a, b)) && (g.Empty? ==> Published(g) == ZERO)
  {
    hide Step, Exact, PositiveSemidefinite;
    ExactStep(f, c, m, a, b);
    StepAwaitsSecond(f, c, m);
  }

  lemma StepStaysOnTruth(s: State, c: Settings, x: Action, a: real, b: real)
    requires Usable(c) && c.adaptiveCutoff >= 0.0 && Healthy(s.filter) && Enabled(s, x) && AllOnTruth(s, a, b)
    requires x.InsertMeasurement? ==> Exact(x.m, a, b) && x.m.maxError >= 0
    ensures AllOnTruth(Next(s, c, x), a, b)
  {
    hide Step, Healthy, Exact, Published, Extrapolated, OnTruth;
    assert OnTruth(ZERO, a, b) by { ZeroIsOnTruth(a, b); }
    if x.InsertMeasurement? {
      FilterStaysOnTruth(s.filter, c, x.m, a, b);
    }
  }

  lemma ZeroIsOnTruth(a: real, b: real)
    ensures OnTruth(ZERO, a, b)
  {
  }

  lemma {:induction false} RunStaysOnTruth(s: State, c: Settings, actions: seq<Action>, t: State, a: real, b: real)
    requires Usable(c) && c.adaptiveCutoff >= 0.0 && AllOnTruth(s, a, b)
    requires Run(s, c, actions, t) && ExactActions(actions, a, b)
    ensures AllOnTruth(t, a, b)
    decreases |actions|
  {
    hide AllOnTruth, Next, Healthy, Exact;
    if actions != [] {
      assert actions[0] in actions;
      StepStaysOnTruth(s, c, actions[0], a, b);
      assert forall x :: x in actions[1..] ==> x in actions;
      RunStaysOnTruth(Next(s, c, actions[0]), c, actions[1..], t, a, b);
    }
  }

  /** If the server's clock drifts steadily and is measured exactly, every read at every time, with the lock or without,
      is within half a microsecond of the truth as soon as the drift is in use. */
  lemma EveryReadIsRight(c: Settings, actions: seq<Action>, t: State, a: real, b: real)
    requires Usable(c) && c.adaptiveCutoff >= 0.0 && Run(INITIAL, c, actions, t) && ExactActions(actions, a, b)
    ensures forall r :: r in t.results && r.source != ZERO && r.source.drift == b ==>
              -0.5 <= r.value as real - (a + b * r.now as real) <= 0.5
    ensures forall r :: r in t.results && r.view.Current? && r.view.filter.Running? && r.view.filter.useDrift ==>
              r.source.drift == r.view.filter.drift
  {
    EveryReadIsWhole(c, actions, t);
    RunStaysOnTruth(INITIAL, c, actions, t, a, b);
    hide Run, ExactActions;
    forall r | r in t.results && r.source != ZERO && r.source.drift == b
      ensures -0.5 <= r.value as real - (a + b * r.now as real) <= 0.5
    {
      assert OnTruth(r.source, a, b) && OnLine(r.value, r.source, r.now);
      RightByTruth(r.value, r.source, r.now, a, b);
    }
  }

  lemma RightByTruth(value: int, t: Triple, now: int, a: real, b: real)
    requires OnLine(value, t, now) && t.offset == a + b * t.lastUpdate as real && t.drift == b
    ensures -0.5 <= value as real - (a + b * now as real) <= 0.5
  {
    ExactArithmetic(t.lastUpdate, now, a, b);
    assert t.offset + t.drift * (now - t.lastUpdate) as real == a + b * now as real;
  }
}
