# Sensor-to-attribute bridge, modelled in Dafny

This project models the logic of two small prototype devices built on matter.js.
Each one turns a sensor signal into an attribute of a commissioned device node.

- **Measurement node** (`prototype/my-sensor/src/SensorDeviceNode.ts`). At
  start-up it resolves its configuration from environment variables, persisted
  device storage and fixed defaults, and it writes the resolved values back to
  storage. Every `interval` seconds it samples a temperature or humidity value
  and sets it on the endpoint; a rejected set is only logged. A sample comes from a configured shell command:
  the output is trimmed, one layer of matching quotes is stripped, and the rest
  is parsed, rounded and clamped at zero for humidity. Without a command, the
  sample is drawn from a fixed random range. The timer is cleared when the node
  goes offline.
- **Contact-sensor node** (`prototype/gpio-button/src/index.ts`). It tries to
  load the `onoff` GPIO module. If the module is missing, it falls back to a mock
  that toggles a boolean on every terminal line, until an `exit` line arrives.
  A GPIO source reports the pin level once at acquisition and then on every
  error-free watch callback. Each report goes through a propagator that sets the
  endpoint's boolean state and only logs a failed set. The node going offline,
  SIGINT and SIGTERM all call the same cleanup.

Modules, one file each:

- `Wrappers`: `Option`, and `GetOr` for `??`.
- `Text`: JavaScript `trim` (the ECMAScript whitespace and line-terminator set),
  lower-casing, and `toString` of a non-negative integer below 10^21.
- `Measurement`: `getIntValueFromCommandOrRandom`.
- `Configuration`: `getConfiguration`.
- `SensorNode`: the measurement node's timer loop.
- `Propagation`: set-and-catch change propagation, shared by both nodes.
- `ContactSensors`: the mock and GPIO sources as folds over their input events,
  plus the pin and debounce settings.
- `ContactNode`: fallback selection, shutdown wiring, and a whole run of the
  contact node.

Behaviours of the code a reader might not expect:

- Only a failure to *load* `onoff` falls back to the mock. An error thrown by
  `new Gpio(...)` or by `readSync()` escapes `setupGpioSensor`, so `main` fails
  and the process exits. The model records this as `SelectSource` returning
  `None` and `RunSession` returning `Fatal`.
- The GPIO cleanup has no guard. Each call unwatches and unexports the pin again,
  so the model counts releases (`ReleaseNotGuarded`) and does not claim
  at-most-once release. The mock's cleanup closes a reader that then stays
  closed (`CloseTwiceIsCloseOnce`).
- Output that `parseFloat` cannot read is not treated as a fatal error. It
  becomes NaN, skips the clamp (`NaN < 0` is false), and is handed to the
  endpoint. The model calls this value `NotANumber`.
- Teardown is registered only on the offline event and on the two signals,
  not on the return of `run()`. `run()` resolves when the node goes offline,
  and the offline handler covers that moment.
- The interval repair rejects only values below 1. Node's timers replace any
  delay above 2^31 - 1 ms with 1 ms, so an interval above 2147483 seconds makes
  the timer fire every millisecond (`OversizedIntervalFiresEveryMillisecond`).
- The endpoint is created with one sample already taken, so the attribute's
  first value comes before the first timer tick (`StartNode`).

## Model

| member | source | states |
|---|---|---|
| Text.Trim | prototype/my-sensor/src/SensorDeviceNode.ts:157 | the trimmed text is a contiguous piece of the input, only whitespace is cut on either side, and no whitespace is left at either end |
| Text.TrimOfPadded | prototype/my-sensor/src/SensorDeviceNode.ts:157 | any whitespace padding around a text with non-blank ends is removed exactly, leaving that text |
| Text.TrimIdempotent | prototype/my-sensor/src/SensorDeviceNode.ts:157 | trimming twice is the same as trimming once |
| Text.ToLower | prototype/gpio-button/src/index.ts:66 | lower-casing keeps the length and maps each character on its own, upper-case ASCII letters to lower case |
| Text.DecimalText | prototype/my-sensor/src/SensorDeviceNode.ts:208 | the clock's text, used as the fallback unique id, is a non-empty string of decimal digits with no leading zero |
| Text.DecimalRoundTrip | prototype/my-sensor/src/SensorDeviceNode.ts:208 | reading that text back as a decimal number gives the clock value |
| Measurement.StripQuotes | prototype/my-sensor/src/SensorDeviceNode.ts:158-159 | text without the same quote at both ends is unchanged; quoted text loses exactly one character from each end; a lone quote becomes empty |
| Measurement.StripQuotesRoundTrip | prototype/my-sensor/src/SensorDeviceNode.ts:158-159 | wrapping any text in one pair of the same quote and stripping gives that text back |
| Measurement.StripQuotesOneLayer | prototype/my-sensor/src/SensorDeviceNode.ts:158-159 | only one layer is removed: `''5''` becomes `'5'` |
| Measurement.MixedQuotesKept | prototype/my-sensor/src/SensorDeviceNode.ts:158 | different quote characters at the two ends, such as `'5"`, are kept |
| Measurement.LoneQuoteBecomesEmpty | prototype/my-sensor/src/SensorDeviceNode.ts:158-159 | a lone quote character passes both tests of the guard and slices down to the empty string |
| Measurement.CommandTextOfQuotedOutput | prototype/my-sensor/src/SensorDeviceNode.ts:157-159 | quoted command output with any surrounding whitespace reaches the parser as exactly the quoted payload |
| Measurement.CommandTextOfNumeral | prototype/my-sensor/src/SensorDeviceNode.ts:157-159 | a decimal numeral followed by whitespace reaches the parser as the bare numeral |
| Measurement.CommandTextOfDigits | prototype/my-sensor/src/SensorDeviceNode.ts:157-159 | any output that begins and ends with a digit, followed by whitespace, reaches the parser unchanged |
| Measurement.Clamp | prototype/my-sensor/src/SensorDeviceNode.ts:162 | with negatives disallowed, the result is non-negative, never below the input, and negative inputs become exactly 0; with negatives allowed, the value is unchanged |
| Measurement.CommandReading | prototype/my-sensor/src/SensorDeviceNode.ts:157-163 | a NaN parse stays NaN; otherwise the rounded parse is returned, unchanged for temperature and clamped at 0 for humidity |
| Measurement.RandomReading | prototype/my-sensor/src/SensorDeviceNode.ts:153-155 | humidity returns the draw k, in 0..100; temperature returns a multiple of 100 in -5000..5000 from which k is recovered as r/100+50 |
| Measurement.RandomTemperatureInjective | prototype/my-sensor/src/SensorDeviceNode.ts:155 | distinct draws give distinct temperatures |
| Measurement.ValueFromCommandOrRandom | prototype/my-sensor/src/SensorDeviceNode.ts:151-164 | with no command, the result is the random reading; with a command, it is the command reading; a humidity number is never negative |
| Measurement.QuotedNegativeOutput | prototype/my-sensor/src/SensorDeviceNode.ts:157-163 | a command printing `'-5'` gives -5 for temperature and 0 for humidity |
| Configuration.NumberSetting | prototype/my-sensor/src/SensorDeviceNode.ts:198 | a numeric setting is the environment's value if present, else the stored value, else the default |
| Configuration.ResolveIsTemperature | prototype/my-sensor/src/SensorDeviceNode.ts:184 | a stored sensor kind wins over the environment; otherwise the kind is temperature unless `type` is `"humidity"` |
| Configuration.ResolveInterval | prototype/my-sensor/src/SensorDeviceNode.ts:190-194 | the interval is at least 1; it is the environment, stored or default value when that is at least 1, and 60 otherwise |
| Configuration.Resolve | prototype/my-sensor/src/SensorDeviceNode.ts:184-208 | each setting follows environment, then storage, then its default (20202021, 3840, 0xfff1, 0x8000, clock text); the port comes from the environment or is 5540 and never from storage; the product name follows the kind |
| Configuration.WriteBack | prototype/my-sensor/src/SensorDeviceNode.ts:211-219 | storage afterwards holds every persisted setting as resolved, keeps every other key unchanged, and gains no port |
| Configuration.ResolveAfterWriteBack | prototype/my-sensor/src/SensorDeviceNode.ts:205-219 | resolving again from the written-back storage, with no environment overrides, reproduces every setting; only the port follows the new environment |
| Configuration.RestartWithEmptyEnvironment | prototype/my-sensor/src/SensorDeviceNode.ts:205-219 | a restart with an empty environment yields the same settings with port 5540 |
| Configuration.WriteBackStable | prototype/my-sensor/src/SensorDeviceNode.ts:210-219 | a second start-up with no overrides leaves storage exactly as the first one left it |
| Configuration.WriteBackOfStoredValues | prototype/my-sensor/src/SensorDeviceNode.ts:211-219 | writing back values that storage already holds changes nothing |
| SensorNode.TickPeriodAtLeastOneSecond | prototype/my-sensor/src/SensorDeviceNode.ts:131 | the period Node uses for `interval*1000` is at least 1000 ms exactly when the resolved interval is at most 2147483 s; it is `interval*1000` then, and 1 ms otherwise |
| SensorNode.OversizedIntervalFiresEveryMillisecond | prototype/my-sensor/src/SensorDeviceNode.ts:190-194 | an environment interval of 2147484 s passes the repair unchanged and gives a 1 ms period |
| SensorNode.Sample | prototype/my-sensor/src/SensorDeviceNode.ts:115-129 | a sample taken by a humidity node is never a negative number |
| SensorNode.SampleCases | prototype/my-sensor/src/SensorDeviceNode.ts:115-129 | a temperature node samples with negative values allowed and a humidity node with them clamped, on both the command and the random path |
| SensorNode.RunLoop | prototype/my-sensor/src/SensorDeviceNode.ts:115-134 | the loop issues at most one set per event |
| SensorNode.RunLoopIsTicksBeforeOffline | prototype/my-sensor/src/SensorDeviceNode.ts:115-134 | the loop issues exactly one set per tick before the first offline event, each carrying that tick's sample, in order; the timer is active exactly when no offline event has occurred |
| SensorNode.NothingAfterOffline | prototype/my-sensor/src/SensorDeviceNode.ts:134 | after the node goes offline no further set is issued |
| SensorNode.StartNode | prototype/my-sensor/src/SensorDeviceNode.ts:86-104 | the endpoint is created with one sample taken before the timer starts, never a negative number for humidity |
| SensorNode.StartNodeReadings | prototype/my-sensor/src/SensorDeviceNode.ts:86-134 | the values offered to the attribute (its start-up value, then the values handed to `endpoint.set`) are the start-up sample followed by one sample per tick before the first offline event |
| SensorNode.Attribute | prototype/my-sensor/src/SensorDeviceNode.ts:115-130 | the timer callback issues exactly the loop's sets, a rejected one being only logged, and the attribute always holds one of the values offered |
| SensorNode.AcceptedAttributeIsLatest | prototype/my-sensor/src/SensorDeviceNode.ts:115-130 | with every set accepted, the attribute holds the latest value offered: the last tick's sample, or the start-up value before any tick |
| SensorNode.HumidityAttributeNeverNegative | prototype/my-sensor/src/SensorDeviceNode.ts:100-130 | a humidity attribute never holds a negative number, whichever sets the endpoint rejects |
| SensorNode.ConstantReading | prototype/my-sensor/src/SensorDeviceNode.ts:86-131 | a command whose output always parses to v makes every value offered equal v on a temperature node and v clamped at 0 on a humidity node, from the start-up value on |
| SensorNode.ConstantCommand | prototype/my-sensor/src/SensorDeviceNode.ts:86-131 | a command that always prints the same non-negative numeral makes every value offered, from the start-up value on, carry that number on either cluster |
| SensorNode.QuotedNegativeCommand | prototype/my-sensor/src/SensorDeviceNode.ts:86-131 | a command that always prints `'-5'` makes every value offered equal -5 on a temperature node and 0 on a humidity node |
| SensorNode.RandomRanges | prototype/my-sensor/src/SensorDeviceNode.ts:153-155 | with no command, every value offered, the start-up one included, is a number: in 0..100 for humidity, a multiple of 100 in -5000..5000 for temperature |
| SensorNode.HumidityNeverNegative | prototype/my-sensor/src/SensorDeviceNode.ts:100-128 | no numeric humidity value offered, the start-up one included, is negative, on either path |
| Propagation.Propagate | prototype/gpio-button/src/index.ts:116-127 | one set request per call, in call order, with the call's value; the attribute ends at the last accepted value, or at the initial value if none was accepted; the result has no failure case |
| Propagation.LoggedIffRejected | prototype/gpio-button/src/index.ts:124-126 | errors are logged exactly when some set was rejected |
| Propagation.FailureDoesNotBlockNext | prototype/gpio-button/src/index.ts:116-127 | after a rejected set for observation k, the set for observation k+1 is still issued, and once accepted it determines the attribute |
| Propagation.LastAcceptedWins | prototype/gpio-button/src/index.ts:116-127 | when the last set is accepted, the attribute holds the last observed value, whatever failed before |
| ContactSensors.ReadGpioSettings | prototype/gpio-button/src/index.ts:33-34 | the pin is 17 and the debounce 10 ms unless `GPIO_PIN` or `GPIO_DEBOUNCE_MS` is set |
| ContactSensors.TrimmedExit | prototype/gpio-button/src/index.ts:66 | any letter-case form of `exit`, padded with whitespace, is the terminator line |
| ContactSensors.ExitLineIff | prototype/gpio-button/src/index.ts:66 | the trim-and-lower test holds exactly when some span of the line is `exit` in some letter case and only whitespace lies outside it |
| ContactSensors.ShoutedExitIsTerminator | prototype/gpio-button/src/index.ts:66 | `"  EXIT "` is the terminator line |
| ContactSensors.ExitWithTrailingWordsToggles | prototype/gpio-button/src/index.ts:66 | `exit now` is an ordinary line |
| ContactSensors.LineAction | prototype/gpio-button/src/index.ts:66-73 | a line closes the reader exactly when it is `exit` in some letter case with only whitespace around it (the reference `ExitAt`); every other line toggles |
| ContactSensors.RunMock | prototype/gpio-button/src/index.ts:58-81 | the mock's state is the parity of the number of reports, and the last report equals the current state |
| ContactSensors.MockIsParity | prototype/gpio-button/src/index.ts:59-73 | the mock starts at false and reports once per line before it first closes; the reports alternate starting from true; after n toggles the state is n mod 2 == 1; the reader is open exactly when nothing has closed it |
| ContactSensors.ClosedIsAbsorbing | prototype/gpio-button/src/index.ts:66-69 | once closed by the terminator or by the cleanup, the mock reports nothing further and its state stops changing |
| ContactSensors.CloseTwiceIsCloseOnce | prototype/gpio-button/src/index.ts:80 | calling the mock's cleanup twice leaves the same state as calling it once |
| ContactSensors.RunGpio | prototype/gpio-button/src/index.ts:37-55 | the first report is the initial `readSync() == 1`; the watch stays registered exactly while no cleanup call has occurred; no release happens while watching |
| ContactSensors.ErrorEdgeIgnored | prototype/gpio-button/src/index.ts:42-46 | a callback with an error reports nothing and leaves the watch in place |
| ContactSensors.ReleaseNotGuarded | prototype/gpio-button/src/index.ts:52-55 | every cleanup call unwatches and unexports again, one more release per call |
| ContactSensors.GpioReportsInitialThenEdges | prototype/gpio-button/src/index.ts:39-50 | the reports are the initial read, then `value == 1` of each error-free callback before the first cleanup call, in order |
| ContactSensors.ReleasedReportsNothing | prototype/gpio-button/src/index.ts:52-55 | after the first cleanup call the pin reports nothing further |
| ContactNode.SelectSource | prototype/gpio-button/src/index.ts:129-132 | a missing module selects the mock and a ready pin selects GPIO, so a cleanup handle is always held; start-up fails only when pin setup throws |
| ContactNode.Reports | prototype/gpio-button/src/index.ts:129-132 | a GPIO source first reports its initial level; the mock reports alternate starting from true |
| ContactNode.RunSession | prototype/gpio-button/src/index.ts:107-148 | the run is fatal exactly when pin setup throws; otherwise the set requests are exactly the reports, a ready pin's initial level comes first, and a missing module means the mock runs |
| ContactNode.SessionWithoutModule | prototype/gpio-button/src/index.ts:129-132 | without the module, the node runs the mock and propagates exactly its reports |
| ContactNode.PropagateAlternating | prototype/gpio-button/src/index.ts:116-127 | when every set is accepted, n alternating reports leave the state at n mod 2 == 1 |
| ContactNode.MockSessionParity | prototype/gpio-button/src/index.ts:58-132 | without the module and with every set accepted, the endpoint ends at the parity of the lines that toggled the mock before it first closed |
| ContactNode.InputsIgnoreTrigger | prototype/gpio-button/src/index.ts:134-145 | which trigger asked for shutdown does not change what the mock or the pin receives |
| ContactNode.TriggersShareOneCleanup | prototype/gpio-button/src/index.ts:134-145 | the offline event, SIGINT and SIGTERM reach the same cleanup: the whole run is the same whichever of them fires |
| ContactNode.ReportsIgnoreTrigger | prototype/gpio-button/src/index.ts:134-145 | the reports of either source do not depend on which trigger asked for shutdown |
| ContactNode.NothingReportedAfterStop | prototype/gpio-button/src/index.ts:134-145 | after the first shutdown request neither source reports anything more, so no further set is issued |

## Left out

- Shell command execution (`execSync`): the command's output is a parameter of each sampling step. An exception thrown by the command is not modelled.
- `parseFloat` and `Math.round`: together they are an abstract `parseRound: string -> Option<int>`, with `None` standing for NaN. Floating-point behaviour is not modelled.
- `Math.random`: its rounded, scaled draw is an integer oracle from 0 to 100. The distribution is not modelled.
- Environment and storage numbers are integers. A fractional interval such as 1.5, which the code would keep, is not modelled.
- Configuration.Resolve: an environment or stored value of the wrong kind counts as absent. In JavaScript it would pass through untyped.
- How `environment.vars.number` and `Number(...)` turn text into numbers: environment values arrive already typed, and `Number` on text is an abstract `toNumber` parameter.
- Text.DecimalText: produces plain digits for every n. JavaScript's `toString` switches to exponent notation from 10^21 on, which a millisecond clock reading never reaches.
- Text.ToLower: covers ASCII letters only. This is exact for the `exit` comparison. Outside ASCII only two characters lower to text holding an ASCII letter: KELVIN SIGN (to `k`) and LATIN CAPITAL LETTER I WITH DOT ABOVE (to `i` followed by COMBINING DOT ABOVE). Neither result can be part of `exit`.
- matter.js `ServerNode` creation, commissioning, networking and `run()`: an external library. `endpoint.set` is reduced to "accepted" or "rejected". A failure of `ServerNode.create` is not modelled.
- Asynchronous completion order: sets are issued in order, and the model also lets them complete in that order.
- readline prompts, logging and console output: they are output only.
- Timers, signals and the event loop: they become sequences of input events.
- The node identity values of the contact node (`UNIQUE_ID`, `PASSCODE`, `DISCRIMINATOR`, `PRODUCT_ID`): they are only passed to the external node.
- `read_temperature.py`: hardware I2C access and float scaling, outside this model.
- `onoff.d.ts`: only its shape is used, as `Level` (0 or 1) and the error-or-level callback.
