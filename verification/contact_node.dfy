/** The contact-sensor node around its input source: hardware first with the
    mock as fallback, every report sent through the containing propagator to
    the endpoint's boolean state, and the source's cleanup reached from the
    node going offline and from both termination signals. */
module ContactNode {
  import opened Wrappers
  import opened ContactSensors
  import Propagation

  /** What start-up finds: the `onoff` module does not load; it loads but
      opening or reading the pin throws; or the pin opens and reads `initial`. */
  datatype Hardware = ModuleMissing | PinFails | PinReady(initial: Level)

  /** The three ways `setupGpioSensor` ends: `undefined`, a thrown error, or a
      cleanup handle for an acquired pin. */
  datatype GpioSetup = NoModule | SetupThrew | Acquired(settings: GpioSettings, initial: Level)

  function SetupGpioSensor(hw: Hardware, env: ProcessEnv, toNumber: string -> Option<int>): (r: GpioSetup)
    ensures r.NoModule? <==> hw.ModuleMissing?
    ensures r.SetupThrew? <==> hw.PinFails?
    ensures r.Acquired? ==> r.settings == ReadGpioSettings(env, toNumber) && r.initial == hw.initial
  {
    match hw
    case ModuleMissing => NoModule
    case PinFails => SetupThrew
    case PinReady(initial) => Acquired(ReadGpioSettings(env, toNumber), initial)
  }

  /** The source whose cleanup the node holds. */
  datatype Source = GpioSource(settings: GpioSettings, initial: Level) | MockSource

  /** `setupGpioSensor(...) ?? setupMockSensor(...)`. `None` is the start-up
      failure that ends the process: only an error thrown after the module has
      loaded gets there, since a missing module falls back to the mock. */
  function SelectSource(hw: Hardware, env: ProcessEnv, toNumber: string -> Option<int>): (r: Option<Source>)
    ensures r.None? <==> hw.PinFails?
    ensures hw.ModuleMissing? ==> r == Some(MockSource)
    ensures hw.PinReady? ==> r == Some(GpioSource(ReadGpioSettings(env, toNumber), hw.initial))
  {
    match SetupGpioSensor(hw, env, toNumber)
    case NoModule => Some(MockSource)
    case SetupThrew => None
    case Acquired(settings, initial) => Some(GpioSource(settings, initial))
  }

  /** Sources of a shutdown request. */
  datatype Trigger = NodeOffline | SigInt | SigTerm

  /** What reaches the running node: a terminal line, a pin callback, or a
      shutdown request that calls the held cleanup. */
  datatype Event = Typed(line: string) | PinEdge(error: bool, level: Level) | Stop(trigger: Trigger)

  /** The mock's view of the events: each line as `lineAction` classifies it,
      each shutdown request as a close; pin callbacks never reach it. */
  function MockActionsOf(events: seq<Event>, lineAction: string -> MockAction): (r: seq<MockAction>)
    ensures |r| <= |events|
  {
    if events == [] then []
    else
      var rest := MockActionsOf(events[1..], lineAction);
      match events[0]
      case Typed(line) => [lineAction(line)] + rest
      case PinEdge(_, _) => rest
      case Stop(_) => [Shut] + rest
  }

  /** The pin's view of the events: callbacks and cleanup calls; typed lines
      never reach it. */
  function GpioInputsOf(events: seq<Event>): (r: seq<GpioInput>)
    ensures |r| <= |events|
  {
    if events == [] then []
    else
      var rest := GpioInputsOf(events[1..]);
      match events[0]
      case Typed(_) => rest
      case PinEdge(error, level) => [Edge(error, level)] + rest
      case Stop(_) => [Release] + rest
  }

  /** The values the selected source hands to the change handler. */
  function Reports(source: Source, events: seq<Event>): (r: seq<bool>)
    ensures source.GpioSource? ==> |r| >= 1 && r[0] == (source.initial == 1)
    ensures source.MockSource? ==> forall i :: 0 <= i < |r| ==> r[i] == (i % 2 == 0)
  {
    match source
    case GpioSource(_, initial) => RunGpio(initial, GpioInputsOf(events)).emitted
    case MockSource =>
      MockIsParity(MockActionsOf(events, LineAction));
      RunMock(MockActionsOf(events, LineAction)).emitted
  }

  /** A whole run: either start-up failed, or the selected source, its reports,
      and what the propagator made of them. `accepts(k)` says whether the
      endpoint accepted the k-th set. */
  datatype Session = Fatal | Running(source: Source, reports: seq<bool>, outcome: Propagation.Outcome<bool>)

  /** The endpoint's boolean state starts out `false`. */
  const InitialState := false

  function RunSession(hw: Hardware, env: ProcessEnv, toNumber: string -> Option<int>,
                      events: seq<Event>, accepts: nat -> bool): (s: Session)
    ensures s.Fatal? <==> hw.PinFails?
    ensures s.Running? ==> s.outcome.requests == s.reports
    ensures s.Running? && hw.PinReady? ==> |s.reports| >= 1 && s.reports[0] == (hw.initial == 1)
    ensures s.Running? && hw.ModuleMissing? ==> s.source == MockSource
  {
    match SelectSource(hw, env, toNumber)
    case None => Fatal
    case Some(source) =>
      var reports := Reports(source, events);
      Running(source, reports, Propagation.Propagate(InitialState, Propagation.Updates(reports, accepts)))
  }

  /** Without the hardware module the node runs the mock and propagates its
      reports. */
  lemma SessionWithoutModule(env: ProcessEnv, toNumber: string -> Option<int>, events: seq<Event>, accepts: nat -> bool)
    ensures var reports := RunMock(MockActionsOf(events, LineAction)).emitted;
            RunSession(ModuleMissing, env, toNumber, events, accepts)
              == Running(MockSource, reports, Propagation.Propagate(InitialState, Propagation.Updates(reports, accepts)))
  {
  }

  /** With every set accepted, propagating `n` alternating reports leaves the
      endpoint at the parity of `n`. */
  lemma PropagateAlternating(n: nat, accepts: nat -> bool)
    requires forall k :: accepts(k)
    ensures Propagation.Propagate(InitialState, Propagation.Updates(Alternating(n), accepts)).attribute == (n % 2 == 1)
  {
    if n > 0 {
      assert Propagation.Updates(Alternating(n), accepts)[n - 1].accepted;
      Propagation.LastAcceptedWins(InitialState, Propagation.Updates(Alternating(n), accepts));
      assert Alternating(n)[n - 1] == ((n - 1) % 2 == 0);
    }
  }

  /** Without the hardware module, and with every set accepted, the endpoint
      ends holding the parity of the lines that toggled the mock before it was
      first closed. */
  lemma MockSessionParity(env: ProcessEnv, toNumber: string -> Option<int>, events: seq<Event>, accepts: nat -> bool)
    requires forall k :: accepts(k)
    ensures var s := RunSession(ModuleMissing, env, toNumber, events, accepts);
            var n := FirstClose(MockActionsOf(events, LineAction));
            s.Running? && |s.reports| == n && s.outcome.attribute == (n % 2 == 1)
  {
    var inputs := MockActionsOf(events, LineAction);
    MockIsParity(inputs);
    SessionWithoutModule(env, toNumber, events, accepts);
    PropagateAlternating(FirstClose(inputs), accepts);
  }

  /** Replaces the trigger of every shutdown request. */
  function Retrigger(events: seq<Event>, t: Trigger): (r: seq<Event>)
    ensures |r| == |events|
    ensures forall i :: 0 <= i < |events| ==> r[i] == if events[i].Stop? then Stop(t) else events[i]
  {
    seq(|events|, i requires 0 <= i < |events| => if events[i].Stop? then Stop(t) else events[i])
  }

  lemma {:induction false} InputsIgnoreTrigger(events: seq<Event>, t: Trigger)
    ensures forall lineAction :: MockActionsOf(Retrigger(events, t), lineAction) == MockActionsOf(events, lineAction)
    ensures GpioInputsOf(Retrigger(events, t)) == GpioInputsOf(events)
    decreases |events|
  {
    if events != [] {
      assert Retrigger(events, t)[1..] == Retrigger(events[1..], t);
      InputsIgnoreTrigger(events[1..], t);
    }
  }

  /** The offline event and both signals call the same cleanup: which of them
      asked for shutdown makes no difference to the run. */
  lemma TriggersShareOneCleanup(hw: Hardware, env: ProcessEnv, toNumber: string -> Option<int>,
                                events: seq<Event>, accepts: nat -> bool, t: Trigger)
    ensures RunSession(hw, env, toNumber, Retrigger(events, t), accepts) == RunSession(hw, env, toNumber, events, accepts)
  {
    match SelectSource(hw, env, toNumber)
    case None =>
    case Some(source) =>
      ReportsIgnoreTrigger(source, events, t);
  }

  lemma ReportsIgnoreTrigger(source: Source, events: seq<Event>, t: Trigger)
    ensures Reports(source, Retrigger(events, t)) == Reports(source, events)
  {
    InputsIgnoreTrigger(events, t);
    assert MockActionsOf(Retrigger(events, t), LineAction) == MockActionsOf(events, LineAction);
  }

  lemma {:induction false} MockActionsOfAppend(a: seq<Event>, b: seq<Event>, lineAction: string -> MockAction)
    ensures MockActionsOf(a + b, lineAction) == MockActionsOf(a, lineAction) + MockActionsOf(b, lineAction)
    decreases |a|
  {
    if a != [] {
      assert (a + b)[1..] == a[1..] + b;
      assert (a + b)[0] == a[0];
      MockActionsOfAppend(a[1..], b, lineAction);
    } else {
      assert a + b == b;
    }
  }

  lemma {:induction false} GpioInputsOfAppend(a: seq<Event>, b: seq<Event>)
    ensures GpioInputsOf(a + b) == GpioInputsOf(a) + GpioInputsOf(b)
    decreases |a|
  {
    if a != [] {
      assert (a + b)[1..] == a[1..] + b;
      assert (a + b)[0] == a[0];
      GpioInputsOfAppend(a[1..], b);
    } else {
      assert a + b == b;
    }
  }

  /** After the first shutdown request the source reports nothing more, so no
      further set is issued. */
  lemma NothingReportedAfterStop(source: Source, before: seq<Event>, t: Trigger, after: seq<Event>)
    ensures Reports(source, before + [Stop(t)] + after) == Reports(source, before + [Stop(t)])
  {
    match source
    case MockSource =>
      MockActionsOfAppend(before + [Stop(t)], after, LineAction);
      MockActionsOfAppend(before, [Stop(t)], LineAction);
      assert MockActionsOf([Stop(t)], LineAction) == [Shut];
      ClosedIsAbsorbing(MockActionsOf(before, LineAction), MockActionsOf(after, LineAction));
    case GpioSource(_, initial) =>
      GpioInputsOfAppend(before + [Stop(t)], after);
      GpioInputsOfAppend(before, [Stop(t)]);
      assert GpioInputsOf([Stop(t)]) == [Release];
      ReleasedReportsNothing(initial, GpioInputsOf(before), GpioInputsOf(after));
  }
}
