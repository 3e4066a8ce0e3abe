/** The measurement node's run loop: one sample when the endpoint is created,
    then one attribute update per timer tick, until the node goes offline and
    the timer is cleared. The timer period comes from the resolved interval. */
module SensorNode {
  import opened Wrappers
  import opened Measurement
  import Configuration
  import Text
  import Propagation

  /** The largest delay Node's timers honour, 2^31 - 1 milliseconds. */
  const TimeoutMaxMs := 0x7FFF_FFFF

  /** The period Node's `setInterval` actually uses for `interval * 1000`: a
      delay outside 1..TimeoutMaxMs is replaced by 1 millisecond. */
  function TickPeriodMs(intervalSeconds: int): int {
    var requested := intervalSeconds * 1000;
    if 1 <= requested <= TimeoutMaxMs then requested else 1
  }

  /** The interval repair only rejects values below 1, so the timer fires at
      most once a second exactly when the resolved interval fits Node's delay
      range; any larger interval makes it fire every millisecond. */
  lemma TickPeriodAtLeastOneSecond(env: Configuration.Store, storage: Configuration.Store, nowMs: nat)
    ensures var interval := Configuration.Resolve(env, storage, nowMs).interval;
            && (TickPeriodMs(interval) >= 1000 <==> interval <= TimeoutMaxMs / 1000)
            && (interval <= TimeoutMaxMs / 1000 ==> TickPeriodMs(interval) == interval * 1000)
            && (interval > TimeoutMaxMs / 1000 ==> TickPeriodMs(interval) == 1)
  {
  }

  /** An `interval` of 2147484 seconds in the environment passes the repair
      and yields a 1 ms period. */
  lemma OversizedIntervalFiresEveryMillisecond(env: Configuration.Store, storage: Configuration.Store, nowMs: nat)
    requires "interval" in env && env["interval"] == Configuration.Num(2147484)
    ensures Configuration.Resolve(env, storage, nowMs).interval == 2147484
    ensures TickPeriodMs(Configuration.Resolve(env, storage, nowMs).interval) == 1
  {
  }

  /** Fixed per process: negative values are allowed for temperature only, and
      the command under the `value` parameter, if any, is what is run. */
  datatype Sampler = Sampler(isTemperature: bool, script: Option<string>, parseRound: string -> Option<int>)

  /** Events after start-up: a timer tick, carrying the oracle values that
      tick's sample consumes, or the node going offline. */
  datatype NodeEvent = Tick(draw: Draw, output: string) | Offline

  /** One call of the sampling step with this node's settings. */
  function Sample(s: Sampler, draw: Draw, output: string): (r: Reading)
    ensures !s.isTemperature && r.Value? ==> r.n >= 0
  {
    ValueFromCommandOrRandom(s.script, output, draw, s.parseRound, s.isTemperature)
  }

  /** A temperature node samples with negative values allowed and a humidity
      node with them clamped, on the command path and on the random path. */
  lemma SampleCases(s: Sampler, draw: Draw, output: string)
    ensures s.script.Some? ==> Sample(s, draw, output) == CommandReading(output, s.parseRound, s.isTemperature)
    ensures s.script.None? ==> Sample(s, draw, output) == Value(RandomReading(draw, s.isTemperature))
  {
  }

  /** The sampling step as the timer callback sees it. */
  function SampleStep(s: Sampler): (Draw, string) -> Reading {
    (draw: Draw, output: string) => Sample(s, draw, output)
  }

  /** Timer state and the values handed to `endpoint.set`, in order. */
  datatype Run = Run(timerActive: bool, sets: seq<Reading>)

  /** Folds the events over the loop: while the timer is active every tick
      calls `sample` once and issues one set with its value; going offline
      clears the timer, after which ticks do nothing. */
  function RunLoop(sample: (Draw, string) -> Reading, events: seq<NodeEvent>): (r: Run)
    ensures |r.sets| <= |events|
  {
    if events == [] then Run(true, [])
    else
      var prev := RunLoop(sample, events[..|events| - 1]);
      match events[|events| - 1]
      case Offline => Run(false, prev.sets)
      case Tick(draw, output) =>
        if prev.timerActive then Run(true, prev.sets + [sample(draw, output)]) else prev
  }

  /** Index of the first offline event, or the length when there is none. */
  function FirstOffline(events: seq<NodeEvent>): (n: nat)
    ensures n <= |events|
    ensures forall i :: 0 <= i < n ==> events[i].Tick?
    ensures n < |events| ==> events[n].Offline?
  {
    if events == [] then 0
    else if events[0].Offline? then 0
    else 1 + FirstOffline(events[1..])
  }

  /** Reference definition: the samples of the ticks before the first offline
      event, in order. */
  function TickSamples(sample: (Draw, string) -> Reading, ticks: seq<NodeEvent>): (r: seq<Reading>)
    requires forall i :: 0 <= i < |ticks| ==> ticks[i].Tick?
    ensures |r| == |ticks|
    ensures forall i :: 0 <= i < |ticks| ==> r[i] == sample(ticks[i].draw, ticks[i].output)
  {
    seq(|ticks|, i requires 0 <= i < |ticks| => sample(ticks[i].draw, ticks[i].output))
  }

  lemma {:induction false} FirstOfflineSnoc(events: seq<NodeEvent>, e: NodeEvent)
    ensures FirstOffline(events + [e]) ==
              if FirstOffline(events) < |events| then FirstOffline(events)
              else if e.Offline? then |events| else |events| + 1
    decreases |events|
  {
    if events != [] {
      assert (events + [e])[1..] == events[1..] + [e];
      FirstOfflineSnoc(events[1..], e);
    }
  }

  /** The loop issues exactly one set per tick before the node first goes
      offline, carrying that tick's sample, and the timer is active exactly
      when no offline event has occurred. */
  lemma {:induction false} RunLoopIsTicksBeforeOffline(sample: (Draw, string) -> Reading, events: seq<NodeEvent>)
    ensures var n := FirstOffline(events);
            RunLoop(sample, events) == Run(n == |events|, TickSamples(sample, events[..n]))
    decreases |events|
  {
    if events != [] {
      var p := events[..|events| - 1];
      var e := events[|events| - 1];
      assert events == p + [e];
      RunLoopIsTicksBeforeOffline(sample, p);
      FirstOfflineSnoc(p, e);
      var n := FirstOffline(events);
      if FirstOffline(p) == |p| && e.Tick? {
        assert events[..n] == p[..FirstOffline(p)] + [e];
        assert TickSamples(sample, events[..n]) == TickSamples(sample, p[..FirstOffline(p)]) + [sample(e.draw, e.output)];
      } else {
        assert events[..n] == p[..FirstOffline(p)];
      }
    }
  }

  /** Once the node has gone offline nothing else is set. */
  lemma NothingAfterOffline(sample: (Draw, string) -> Reading, before: seq<NodeEvent>, after: seq<NodeEvent>)
    ensures RunLoop(sample, before + [Offline] + after).sets == RunLoop(sample, before).sets
  {
    var all := before + [Offline] + after;
    RunLoopIsTicksBeforeOffline(sample, all);
    RunLoopIsTicksBeforeOffline(sample, before);
    var k := |before + [Offline]|;
    assert all[..k] == before + [Offline];
    FirstOfflineSnoc(before, Offline);
    FirstOfflinePrefix(all, k);
    assert all[..FirstOffline(all)] == before[..FirstOffline(before)];
  }

  /** The first offline event of a sequence is found in any prefix that
      contains it. */
  lemma {:induction false} FirstOfflinePrefix(events: seq<NodeEvent>, k: nat)
    requires k <= |events|
    requires FirstOffline(events[..k]) < k
    ensures FirstOffline(events) == FirstOffline(events[..k])
    decreases k
  {
    assert events[..k][0] == events[0];
    if !events[0].Offline? {
      assert events[..k][1..] == events[1..][..k - 1];
      FirstOfflinePrefix(events[1..], k - 1);
    }
  }

  /** The node after start-up and the given events: the measured value the
      endpoint is created with, sampled once before the timer starts, and the
      loop's run. */
  datatype Node = Node(initial: Reading, run: Run)

  function StartNode(s: Sampler, draw: Draw, output: string, events: seq<NodeEvent>): (n: Node)
    ensures !s.isTemperature && n.initial.Value? ==> n.initial.n >= 0
    ensures |n.run.sets| <= |events|
  {
    Node(Sample(s, draw, output), RunLoop(SampleStep(s), events))
  }

  /** Every value offered to the measured attribute, in order: the start-up
      value, then the value of each set request. */
  function Readings(n: Node): seq<Reading> {
    [n.initial] + n.run.sets
  }

  /** The values offered are the start-up sample followed by one sample per
      tick before the node first goes offline. */
  lemma StartNodeReadings(s: Sampler, draw: Draw, output: string, events: seq<NodeEvent>)
    ensures var k := FirstOffline(events);
            Readings(StartNode(s, draw, output, events)) == [Sample(s, draw, output)] + TickSamples(SampleStep(s), events[..k])
  {
    RunLoopIsTicksBeforeOffline(SampleStep(s), events);
  }

  /** The measured attribute after the run, through the timer callback's
      `set`-and-`catch`: it starts at the start-up value and takes the value of
      each set the endpoint accepts; a rejected set is only logged.
      `accepts(i)` says whether the i-th set was accepted. */
  function Attribute(n: Node, accepts: nat -> bool): (o: Propagation.Outcome<Reading>)
    ensures o.requests == n.run.sets
    ensures o.attribute in Readings(n)
  {
    var o := Propagation.Propagate(n.initial, Propagation.Updates(n.run.sets, accepts));
    var k := Propagation.LastAccepted(Propagation.Updates(n.run.sets, accepts));
    assert k >= 0 ==> o.attribute == Readings(n)[k + 1];
    o
  }

  /** With every set accepted, the attribute holds the latest value offered. */
  lemma AcceptedAttributeIsLatest(n: Node, accepts: nat -> bool)
    requires forall k :: accepts(k)
    ensures Attribute(n, accepts).attribute == Readings(n)[|Readings(n)| - 1]
  {
    var u := Propagation.Updates(n.run.sets, accepts);
    if u != [] {
      assert u[|u| - 1].accepted;
      Propagation.LastAcceptedWins(n.initial, u);
    }
  }

  /** A humidity attribute never holds a negative number, whichever sets the
      endpoint rejects. */
  lemma HumidityAttributeNeverNegative(s: Sampler, draw: Draw, output: string, events: seq<NodeEvent>, accepts: nat -> bool)
    requires !s.isTemperature
    ensures var a := Attribute(StartNode(s, draw, output, events), accepts).attribute;
            a.Value? ==> a.n >= 0
  {
    HumidityNeverNegative(s, draw, output, events);
  }

  /** A command whose output always parses to `v` makes every value offered
      `v` on a temperature node, and `v` clamped at 0 on a humidity node. */
  lemma ConstantReading(s: Sampler, draw: Draw, output: string, events: seq<NodeEvent>, v: int)
    requires s.script.Some?
    requires s.parseRound(CommandText(output)) == Some(v)
    requires forall i :: 0 <= i < |events| && events[i].Tick? ==> s.parseRound(CommandText(events[i].output)) == Some(v)
    ensures var r := Readings(StartNode(s, draw, output, events));
            forall i :: 0 <= i < |r| ==> r[i] == Value(if s.isTemperature || v >= 0 then v else 0)
  {
    var x := Value(if s.isTemperature || v >= 0 then v else 0);
    SampleOfParse(s, draw, output, v);
    forall i | 0 <= i < |events| && events[i].Tick?
      ensures Sample(s, events[i].draw, events[i].output) == x
    {
      SampleOfParse(s, events[i].draw, events[i].output, v);
    }
    ReadingsAllEqual(s, draw, output, events, x);
  }

  /** A property of the start-up value and of every tick's sample holds of
      every value offered. */
  lemma ValuesSatisfy(sample: (Draw, string) -> Reading, first: Reading, events: seq<NodeEvent>, P: Reading -> bool)
    requires P(first)
    requires forall i :: 0 <= i < |events| && events[i].Tick? ==> P(sample(events[i].draw, events[i].output))
    ensures var r := [first] + RunLoop(sample, events).sets;
            forall i :: 0 <= i < |r| ==> P(r[i])
  {
    RunLoopIsTicksBeforeOffline(sample, events);
    var k := FirstOffline(events);
    var r := [first] + RunLoop(sample, events).sets;
    forall i | 0 < i < |r|
      ensures P(r[i])
    {
      assert events[..k][i - 1] == events[i - 1];
    }
  }

  /** When the start-up sample and every tick's sample give the same reading,
      so does every value offered. */
  lemma ReadingsAllEqual(s: Sampler, draw: Draw, output: string, events: seq<NodeEvent>, x: Reading)
    requires Sample(s, draw, output) == x
    requires forall i :: 0 <= i < |events| && events[i].Tick? ==> Sample(s, events[i].draw, events[i].output) == x
    ensures var r := Readings(StartNode(s, draw, output, events));
            forall i :: 0 <= i < |r| ==> r[i] == x
  {
    var P := (r: Reading) => r == x;
    forall i | 0 <= i < |events| && events[i].Tick?
      ensures P(SampleStep(s)(events[i].draw, events[i].output))
    {
    }
    ValuesSatisfy(SampleStep(s), x, events, P);
    var r := Readings(StartNode(s, draw, output, events));
    assert r == [x] + RunLoop(SampleStep(s), events).sets;
    forall i | 0 <= i < |r|
      ensures r[i] == x
    {
      assert P(r[i]);
    }
  }

  lemma SampleOfParse(s: Sampler, draw: Draw, output: string, v: int)
    requires s.script.Some?
    requires s.parseRound(CommandText(output)) == Some(v)
    ensures Sample(s, draw, output) == Value(if s.isTemperature || v >= 0 then v else 0)
  {
    SampleCases(s, draw, output);
  }

  /** A command that always prints the same non-negative numeral `n`, with any
      trailing whitespace, makes every value offered `n`, on either cluster. */
  lemma ConstantCommand(s: Sampler, draw: Draw, events: seq<NodeEvent>, n: nat, post: string)
    requires s.script.Some?
    requires Text.AllWhitespace(post)
    requires s.parseRound(Text.DecimalText(n)) == Some(n)
    requires forall i :: 0 <= i < |events| && events[i].Tick? ==> events[i].output == Text.DecimalText(n) + post
    ensures var r := Readings(StartNode(s, draw, Text.DecimalText(n) + post, events));
            forall i :: 0 <= i < |r| ==> r[i] == Value(n)
  {
    CommandTextOfNumeral(n, post);
    ConstantReading(s, draw, Text.DecimalText(n) + post, events, n);
  }

  /** A command that always prints `'-5'` makes every value offered -5 on a
      temperature node and 0 on a humidity node. */
  lemma QuotedNegativeCommand(s: Sampler, draw: Draw, events: seq<NodeEvent>)
    requires s.script.Some?
    requires s.parseRound("-5") == Some(-5)
    requires forall i :: 0 <= i < |events| && events[i].Tick? ==> events[i].output == "'-5'\n"
    ensures var r := Readings(StartNode(s, draw, "'-5'\n", events));
            forall i :: 0 <= i < |r| ==> r[i] == Value(if s.isTemperature then -5 else 0)
  {
    QuotedNegativeText();
    ConstantReading(s, draw, "'-5'\n", events, -5);
  }

  /** Without a command, every humidity value lies in 0..100 and every
      temperature value in -5000..5000, a multiple of 100. */
  lemma RandomRanges(s: Sampler, draw: Draw, output: string, events: seq<NodeEvent>)
    requires s.script.None?
    ensures var r := Readings(StartNode(s, draw, output, events));
            forall i :: 0 <= i < |r| ==>
              && r[i].Value?
              && (!s.isTemperature ==> 0 <= r[i].n <= 100)
              && (s.isTemperature ==> -5000 <= r[i].n <= 5000 && r[i].n % 100 == 0)
  {
    var P := (r: Reading) =>
      && r.Value?
      && (!s.isTemperature ==> 0 <= r.n <= 100)
      && (s.isTemperature ==> -5000 <= r.n <= 5000 && r.n % 100 == 0);
    forall d: Draw, o: string
      ensures P(SampleStep(s)(d, o))
    {
      SampleCases(s, d, o);
    }
    ValuesSatisfy(SampleStep(s), Sample(s, draw, output), events, P);
    var r := Readings(StartNode(s, draw, output, events));
    assert r == [Sample(s, draw, output)] + RunLoop(SampleStep(s), events).sets;
    forall i | 0 <= i < |r|
      ensures && r[i].Value?
              && (!s.isTemperature ==> 0 <= r[i].n <= 100)
              && (s.isTemperature ==> -5000 <= r[i].n <= 5000 && r[i].n % 100 == 0)
    {
      assert P(r[i]);
    }
  }

  /** Humidity never goes out negative, on either path, from the start-up
      value on. */
  lemma HumidityNeverNegative(s: Sampler, draw: Draw, output: string, events: seq<NodeEvent>)
    requires !s.isTemperature
    ensures var r := Readings(StartNode(s, draw, output, events));
            forall i :: 0 <= i < |r| && r[i].Value? ==> r[i].n >= 0
  {
    var P := (r: Reading) => r.Value? ==> r.n >= 0;
    forall d: Draw, o: string
      ensures P(SampleStep(s)(d, o))
    {
    }
    ValuesSatisfy(SampleStep(s), Sample(s, draw, output), events, P);
    var r := Readings(StartNode(s, draw, output, events));
    assert r == [Sample(s, draw, output)] + RunLoop(SampleStep(s), events).sets;
    forall i | 0 <= i < |r| && r[i].Value?
      ensures r[i].n >= 0
    {
      assert P(r[i]);
    }
  }
}
