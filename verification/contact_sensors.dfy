/** The two input sources of the contact-sensor node: a GPIO pin watched for
    edges, and a line-driven mock that toggles a boolean on every input line.
    Both report each new contact state through the same change handler; here
    each is a fold over its input events producing the values handed to that
    handler, in order. */
module ContactSensors {
  import opened Wrappers
  import Text

  const DefaultPin := 17
  const DefaultDebounceMs := 10

  /** What `readSync` returns and what a watch callback carries. */
  type Level = b: int | b == 0 || b == 1

  /** The process environment of the contact node: text values by name. */
  type ProcessEnv = map<string, string>

  /** Pin and debounce window; `None` is the NaN that `Number` gives on text
      it cannot read. */
  datatype GpioSettings = GpioSettings(pin: Option<int>, debounceMs: Option<int>)

  /** `Number(process.env[key] ?? default)`; `toNumber` is `Number` on text. */
  function NumberOrDefault(env: ProcessEnv, key: string, default: int, toNumber: string -> Option<int>): (r: Option<int>)
    ensures key !in env ==> r == Some(default)
    ensures key in env ==> r == toNumber(env[key])
  {
    if key in env then toNumber(env[key]) else Some(default)
  }

  function ReadGpioSettings(env: ProcessEnv, toNumber: string -> Option<int>): (g: GpioSettings)
    ensures "GPIO_PIN" !in env ==> g.pin == Some(DefaultPin)
    ensures "GPIO_DEBOUNCE_MS" !in env ==> g.debounceMs == Some(DefaultDebounceMs)
    ensures "GPIO_PIN" in env ==> g.pin == toNumber(env["GPIO_PIN"])
    ensures "GPIO_DEBOUNCE_MS" in env ==> g.debounceMs == toNumber(env["GPIO_DEBOUNCE_MS"])
  {
    GpioSettings(NumberOrDefault(env, "GPIO_PIN", DefaultPin, toNumber),
                 NumberOrDefault(env, "GPIO_DEBOUNCE_MS", DefaultDebounceMs, toNumber))
  }

  // ---------------------------------------------------------------------------
  // Mock sensor
  // ---------------------------------------------------------------------------

  /** The terminator: `exit` in any letter case, with any surrounding whitespace. */
  predicate IsExitLine(line: string) {
    Text.ToLower(Text.Trim(line)) == "exit"
  }

  lemma TrimmedExit(pre: string, word: string, post: string)
    requires Text.AllWhitespace(pre) && Text.AllWhitespace(post)
    requires |word| == 4 && Text.IsTrimmed(word)
    requires forall i :: 0 <= i < 4 ==> Text.LowerChar(word[i]) == "exit"[i]
    ensures IsExitLine(pre + word + post)
  {
    Text.TrimOfPadded(pre, word, post);
    var low := Text.ToLower(word);
    assert forall i :: 0 <= i < 4 ==> low[i] == "exit"[i];
    assert low == "exit";
  }

  /** Reference definition of the terminator: positions `a` to `b` of the line
      hold `exit` in some letter case, with only whitespace before and after. */
  predicate ExitAt(line: string, a: nat, b: nat) {
    && a <= b <= |line| && b - a == 4
    && Text.AllWhitespace(line[..a]) && Text.AllWhitespace(line[b..])
    && forall i :: 0 <= i < 4 ==> Text.LowerChar(line[a..b][i]) == "exit"[i]
  }

  /** The trim-and-lower test accepts exactly the lines that are `exit`, in
      some letter case, surrounded by whitespace. */
  lemma ExitLineIff(line: string)
    ensures IsExitLine(line) <==> exists a: nat, b: nat :: ExitAt(line, a, b)
  {
    if IsExitLine(line) {
      ExitLineFound(line);
    }
    if exists a: nat, b: nat :: ExitAt(line, a, b) {
      var a: nat, b: nat :| ExitAt(line, a, b);
      ExitAtIsExitLine(line, a, b);
    }
  }

  lemma ExitLineFound(line: string)
    requires IsExitLine(line)
    ensures ExitAt(line, Text.LeadingWhitespace(line), Text.LeadingWhitespace(line) + 4)
  {
    var t := Text.Trim(line);
    var a := Text.LeadingWhitespace(line);
    assert |t| == 4;
    forall i | 0 <= i < 4
      ensures Text.LowerChar(line[a..a + 4][i]) == "exit"[i]
    {
      assert Text.ToLower(t)[i] == Text.LowerChar(t[i]);
    }
  }

  lemma ExitAtIsExitLine(line: string, a: nat, b: nat)
    requires ExitAt(line, a, b)
    ensures IsExitLine(line)
  {
    var word := line[a..b];
    assert Text.LowerChar(word[0]) == 'e' && Text.LowerChar(word[3]) == 't';
    assert line == line[..a] + word + line[b..];
    TrimmedExit(line[..a], word, line[b..]);
  }

  /** The terminator is recognised in any case and with surrounding blanks. */
  lemma ShoutedExitIsTerminator()
    ensures IsExitLine("  EXIT ")
  {
    assert !Text.IsWhitespace('E') && !Text.IsWhitespace('T');
    TrimmedExit("  ", "EXIT", " ");
    assert "  " + "EXIT" + " " == "  EXIT ";
  }

  /** A line that merely starts with the word toggles like any other. */
  lemma ExitWithTrailingWordsToggles()
    ensures !IsExitLine("exit now")
  {
    assert !Text.IsWhitespace('e') && !Text.IsWhitespace('w');
    Text.TrimOfPadded([], "exit now", []);
    assert [] + "exit now" + [] == "exit now";
  }

  /** What an input does to an open reader: a line toggles; the terminator
      line, and every call of the returned cleanup, closes it. */
  datatype MockAction = Toggle | Shut

  /** The `line` handler's test. */
  function LineAction(line: string): (a: MockAction)
    ensures a.Shut? <==> exists p: nat, q: nat :: ExitAt(line, p, q)
    ensures a.Toggle? <==> !IsExitLine(line)
  {
    ExitLineIff(line);
    if IsExitLine(line) then Shut else Toggle
  }

  /** The current contact state and whether the line reader is still open. */
  datatype MockState = MockState(value: bool, open: bool)

  datatype MockRun = MockRun(state: MockState, emitted: seq<bool>)

  /** Folds inputs over the mock, which starts at `false` with its reader open.
      An open reader toggles and reports on every line except the terminator,
      which closes it; the cleanup closes it too. A closed reader delivers
      nothing more. */
  function RunMock(inputs: seq<MockAction>): (r: MockRun)
    ensures |r.emitted| <= |inputs|
    ensures r.state.value <==> |r.emitted| % 2 == 1
    ensures r.emitted != [] ==> r.emitted[|r.emitted| - 1] == r.state.value
  {
    if inputs == [] then MockRun(MockState(false, true), [])
    else
      var prev := RunMock(inputs[..|inputs| - 1]);
      var input := inputs[|inputs| - 1];
      if !prev.state.open then prev
      else if input == Shut then MockRun(prev.state.(open := false), prev.emitted)
      else
        var v := !prev.state.value;
        MockRun(MockState(v, true), prev.emitted + [v])
  }

  /** Index of the first input that closes the reader, or the length. */
  function FirstClose(inputs: seq<MockAction>): (n: nat)
    ensures n <= |inputs|
    ensures forall i :: 0 <= i < n ==> inputs[i].Toggle?
    ensures n < |inputs| ==> inputs[n].Shut?
  {
    if inputs == [] then 0
    else if inputs[0] == Shut then 0
    else 1 + FirstClose(inputs[1..])
  }

  /** Reference trace: `n` reports alternating from `true`. */
  function Alternating(n: nat): (r: seq<bool>)
    ensures |r| == n
  {
    seq(n, i => i % 2 == 0)
  }

  lemma {:induction false} FirstCloseSnoc(inputs: seq<MockAction>, x: MockAction)
    ensures FirstClose(inputs + [x]) ==
              if FirstClose(inputs) < |inputs| then FirstClose(inputs)
              else if x == Shut then |inputs| else |inputs| + 1
    decreases |inputs|
  {
    if inputs != [] {
      assert (inputs + [x])[1..] == inputs[1..] + [x];
      FirstCloseSnoc(inputs[1..], x);
    }
  }

  /** Parity: the mock reports once per line before it first closes, the
      reports alternate starting from `true`, its state is the parity of that
      count, and it is open exactly when nothing has closed it. */
  lemma {:induction false} MockIsParity(inputs: seq<MockAction>)
    ensures var n := FirstClose(inputs);
            RunMock(inputs) == MockRun(MockState(n % 2 == 1, n == |inputs|), Alternating(n))
    decreases |inputs|
  {
    if inputs != [] {
      var p := inputs[..|inputs| - 1];
      var x := inputs[|inputs| - 1];
      assert inputs == p + [x];
      MockIsParity(p);
      FirstCloseSnoc(p, x);
      var n := FirstClose(p);
      if n == |p| && x == Toggle {
        assert Alternating(n) + [n % 2 == 0] == Alternating(n + 1);
      }
    }
  }

  lemma {:induction false} FirstClosePrefix(inputs: seq<MockAction>, k: nat)
    requires k <= |inputs|
    requires FirstClose(inputs[..k]) < k
    ensures FirstClose(inputs) == FirstClose(inputs[..k])
    decreases k
  {
    assert inputs[..k][0] == inputs[0];
    if inputs[0] == Toggle {
      assert inputs[..k][1..] == inputs[1..][..k - 1];
      FirstClosePrefix(inputs[1..], k - 1);
    }
  }

  /** Once closed, by the terminator line or by the cleanup, the mock reports
      nothing further and its state no longer changes. */
  lemma ClosedIsAbsorbing(before: seq<MockAction>, after: seq<MockAction>)
    ensures RunMock(before + [Shut] + after) == RunMock(before + [Shut])
  {
    var all := before + [Shut] + after;
    var k := |before| + 1;
    assert all[..k] == before + [Shut];
    FirstCloseSnoc(before, Shut);
    MockIsParity(all);
    MockIsParity(before + [Shut]);
    FirstClosePrefix(all, k);
  }

  /** Calling the cleanup a second time leaves the mock exactly as one call did. */
  lemma CloseTwiceIsCloseOnce(inputs: seq<MockAction>)
    ensures RunMock(inputs + [Shut, Shut]) == RunMock(inputs + [Shut])
  {
    ClosedIsAbsorbing(inputs, [Shut]);
    assert inputs + [Shut] + [Shut] == inputs + [Shut, Shut];
  }

  // ---------------------------------------------------------------------------
  // GPIO sensor
  // ---------------------------------------------------------------------------

  /** A watch callback (with its error flag and level), or a call of the
      returned cleanup. */
  datatype GpioInput = Edge(error: bool, level: Level) | Release

  /** Whether the watcher is registered, the values reported, and how many
      times the pin was unwatched and unexported. */
  datatype GpioRun = GpioRun(watching: bool, emitted: seq<bool>, releases: nat)

  /** Folds inputs over a pin acquired with initial level `initial`: the initial
      level is reported once before the watcher is registered; each callback
      without an error reports its level while watching; a callback with an
      error reports nothing; the cleanup unwatches and unexports on every call,
      and an unwatched pin delivers no more callbacks. */
  function RunGpio(initial: Level, inputs: seq<GpioInput>): (r: GpioRun)
    ensures |r.emitted| >= 1 && r.emitted[0] == (initial == 1)
    ensures |r.emitted| <= |inputs| + 1
    ensures r.watching <==> forall i :: 0 <= i < |inputs| ==> inputs[i].Edge?
    ensures r.watching ==> r.releases == 0
    ensures r.releases <= |inputs|
  {
    if inputs == [] then GpioRun(true, [initial == 1], 0)
    else
      var prev := RunGpio(initial, inputs[..|inputs| - 1]);
      assert forall i :: 0 <= i < |inputs| - 1 ==> inputs[..|inputs| - 1][i] == inputs[i];
      match inputs[|inputs| - 1]
      case Release => prev.(watching := false, releases := prev.releases + 1)
      case Edge(error, level) =>
        if !prev.watching || error then prev
        else prev.(emitted := prev.emitted + [level == 1])
  }

  /** A callback carrying an error changes nothing: no report, the watch stays. */
  lemma ErrorEdgeIgnored(initial: Level, inputs: seq<GpioInput>, level: Level)
    ensures RunGpio(initial, inputs + [Edge(true, level)]) == RunGpio(initial, inputs)
  {
    assert (inputs + [Edge(true, level)])[..|inputs|] == inputs;
  }

  /** The cleanup has no guard of its own: every call releases the pin again. */
  lemma ReleaseNotGuarded(initial: Level, inputs: seq<GpioInput>)
    ensures RunGpio(initial, inputs + [Release]).releases == RunGpio(initial, inputs).releases + 1
    ensures !RunGpio(initial, inputs + [Release]).watching
  {
    assert (inputs + [Release])[..|inputs|] == inputs;
  }

  /** Index of the first cleanup call, or the length. */
  function FirstRelease(inputs: seq<GpioInput>): (n: nat)
    ensures n <= |inputs|
    ensures forall i :: 0 <= i < n ==> inputs[i].Edge?
    ensures n < |inputs| ==> inputs[n].Release?
  {
    if inputs == [] then 0
    else if inputs[0].Release? then 0
    else 1 + FirstRelease(inputs[1..])
  }

  /** Reference: the levels of the error-free callbacks, in order. */
  function Observed(edges: seq<GpioInput>): seq<bool> {
    if edges == [] then []
    else
      var last := edges[|edges| - 1];
      Observed(edges[..|edges| - 1]) + (if last.Edge? && !last.error then [last.level == 1] else [])
  }

  lemma {:induction false} FirstReleaseSnoc(inputs: seq<GpioInput>, x: GpioInput)
    ensures FirstRelease(inputs + [x]) ==
              if FirstRelease(inputs) < |inputs| then FirstRelease(inputs)
              else if x.Release? then |inputs| else |inputs| + 1
    decreases |inputs|
  {
    if inputs != [] {
      assert (inputs + [x])[1..] == inputs[1..] + [x];
      FirstReleaseSnoc(inputs[1..], x);
    }
  }

  /** The reports are the initial read followed by the level of every
      error-free callback before the first cleanup call, in order. */
  lemma {:induction false} GpioReportsInitialThenEdges(initial: Level, inputs: seq<GpioInput>)
    ensures RunGpio(initial, inputs).emitted == [initial == 1] + Observed(inputs[..FirstRelease(inputs)])
    decreases |inputs|
  {
    if inputs != [] {
      var p := inputs[..|inputs| - 1];
      var x := inputs[|inputs| - 1];
      assert inputs == p + [x];
      GpioReportsInitialThenEdges(initial, p);
      FirstReleaseSnoc(p, x);
      var n := FirstRelease(p);
      if n == |p| && x.Edge? {
        assert inputs[..FirstRelease(inputs)] == p[..n] + [x];
        assert (p[..n] + [x])[..n] == p[..n];
      } else {
        assert inputs[..FirstRelease(inputs)] == p[..FirstRelease(p)];
      }
    }
  }

  lemma {:induction false} FirstReleasePrefix(inputs: seq<GpioInput>, k: nat)
    requires k <= |inputs|
    requires FirstRelease(inputs[..k]) < k
    ensures FirstRelease(inputs) == FirstRelease(inputs[..k])
    decreases k
  {
    assert inputs[..k][0] == inputs[0];
    if inputs[0].Edge? {
      assert inputs[..k][1..] == inputs[1..][..k - 1];
      FirstReleasePrefix(inputs[1..], k - 1);
    }
  }

  /** After the first cleanup call the pin reports nothing further, whatever
      callbacks or cleanup calls follow. */
  lemma ReleasedReportsNothing(initial: Level, before: seq<GpioInput>, after: seq<GpioInput>)
    ensures RunGpio(initial, before + [Release] + after).emitted == RunGpio(initial, before + [Release]).emitted
  {
    var all := before + [Release] + after;
    var k := |before| + 1;
    assert all[..k] == before + [Release];
    FirstReleaseSnoc(before, Release);
    GpioReportsInitialThenEdges(initial, all);
    GpioReportsInitialThenEdges(initial, before + [Release]);
    FirstReleasePrefix(all, k);
    var n := FirstRelease(all);
    assert all[..n] == all[..k][..n];
  }
}
