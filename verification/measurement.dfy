/** How the measurement node turns one sampling step into an integer attribute
    value (`getIntValueFromCommandOrRandom`): either the trimmed, unquoted,
    parsed and rounded output of a configured shell command, clamped at zero
    for humidity, or a pseudo-random value from a range fixed per kind. */
module Measurement {
  import opened Wrappers
  import Text

  /** `Math.round(Math.random() * 100)`: an integer from 0 to 100 inclusive. */
  type Draw = k: int | 0 <= k <= 100

  /** What one sampling step yields. `NotANumber` stands for the NaN that
      `parseFloat` gives on output it cannot read; nothing downstream of the
      parse turns it back into a number. */
  datatype Reading = Value(n: int) | NotANumber

  predicate IsQuote(c: char) {
    c == '\'' || c == '"'
  }

  predicate StartsWith(t: string, c: char) {
    |t| > 0 && t[0] == c
  }

  predicate EndsWith(t: string, c: char) {
    |t| > 0 && t[|t| - 1] == c
  }

  /** The guard of the quote stripping: same quote character at both ends. A
      single quote character on its own satisfies both halves of the test. */
  predicate Quoted(t: string) {
    || (StartsWith(t, '\'') && EndsWith(t, '\''))
    || (StartsWith(t, '"') && EndsWith(t, '"'))
  }

  /** `t.slice(1, -1)`: empty when fewer than two characters remain. */
  function SliceInner(t: string): string {
    if |t| < 2 then [] else t[1..|t| - 1]
  }

  /** Strips one layer of matching single or double quotes. */
  function StripQuotes(t: string): (r: string)
    ensures !Quoted(t) ==> r == t
    ensures Quoted(t) && |t| >= 2 ==> |r| == |t| - 2 && [t[0]] + r + [t[|t| - 1]] == t
    ensures Quoted(t) && |t| < 2 ==> r == []
  {
    if Quoted(t) then SliceInner(t) else t
  }

  /** Wrapping any text in one pair of the same quote character and stripping
      gives the text back, whatever quotes the text itself holds. */
  lemma StripQuotesRoundTrip(q: char, s: string)
    requires IsQuote(q)
    ensures StripQuotes([q] + s + [q]) == s
  {
    var t := [q] + s + [q];
    assert t[1..|t| - 1] == s;
  }

  /** Only one layer comes off: `''5''` becomes `'5'`. */
  lemma StripQuotesOneLayer()
    ensures StripQuotes("''5''") == "'5'"
  {
    StripQuotesRoundTrip('\'', "'5'");
    assert "''5''" == ['\''] + "'5'" + ['\''];
  }

  /** Differing quote characters at the two ends are left in place. */
  lemma MixedQuotesKept(t: string)
    requires |t| >= 2 && IsQuote(t[0]) && IsQuote(t[|t| - 1]) && t[0] != t[|t| - 1]
    ensures StripQuotes(t) == t
  {
  }

  /** A lone quote character passes the guard and slices down to nothing. */
  lemma LoneQuoteBecomesEmpty(q: char)
    requires IsQuote(q)
    ensures StripQuotes([q]) == []
  {
  }

  /** The text handed to the parser: trimmed command output, one quote layer off. */
  function CommandText(output: string): string {
    StripQuotes(Text.Trim(output))
  }

  /** A decimal numeral followed by whitespace (the newline `echo` prints)
      reaches the parser as the bare numeral. */
  lemma CommandTextOfNumeral(n: nat, post: string)
    requires Text.AllWhitespace(post)
    ensures CommandText(Text.DecimalText(n) + post) == Text.DecimalText(n)
  {
    var d := Text.DecimalText(n);
    assert Text.IsDigit(d[0]) && Text.IsDigit(d[|d| - 1]);
    CommandTextOfDigits(d, post);
  }

  /** Text that begins and ends with a digit, followed by whitespace, reaches
      the parser unchanged: digits are neither whitespace nor quotes. */
  lemma CommandTextOfDigits(d: string, post: string)
    requires d != [] && Text.IsDigit(d[0]) && Text.IsDigit(d[|d| - 1])
    requires Text.AllWhitespace(post)
    ensures CommandText(d + post) == d
  {
    assert !Text.IsWhitespace(d[0]) && !Text.IsWhitespace(d[|d| - 1]);
    assert !Quoted(d);
    assert [] + d + post == d + post;
    Text.TrimOfPadded([], d, post);
  }

  /** Output padded with whitespace around one quoted payload reaches the parser
      as exactly that payload. */
  lemma CommandTextOfQuotedOutput(pre: string, q: char, s: string, post: string)
    requires Text.AllWhitespace(pre) && Text.AllWhitespace(post)
    requires IsQuote(q)
    ensures CommandText(pre + [q] + s + [q] + post) == s
  {
    var t := [q] + s + [q];
    assert !Text.IsWhitespace(q);
    assert t[0] == q && t[|t| - 1] == q;
    assert pre + [q] + s + [q] + post == pre + t + post;
    Text.TrimOfPadded(pre, t, post);
    StripQuotesRoundTrip(q, s);
  }

  /** The humidity clamp: a negative value becomes 0 when negatives are not
      allowed; otherwise the value passes through. */
  function Clamp(v: int, allowNegative: bool): (r: int)
    ensures allowNegative ==> r == v
    ensures !allowNegative ==> r >= 0 && r >= v
    ensures !allowNegative && v >= 0 ==> r == v
    ensures !allowNegative && v < 0 ==> r == 0
  {
    if !allowNegative && v < 0 then 0 else v
  }

  /** The command path. `parseRound` is `Math.round(parseFloat(·))` with NaN as
      `None`. */
  function CommandReading(output: string, parseRound: string -> Option<int>, allowNegative: bool): (r: Reading)
    ensures r.NotANumber? <==> parseRound(CommandText(output)).None?
    ensures r.Value? && allowNegative ==> r.n == parseRound(CommandText(output)).value
    ensures r.Value? && !allowNegative ==> r.n >= 0
    ensures r.Value? && !allowNegative ==>
              var v := parseRound(CommandText(output)).value;
              (v >= 0 && r.n == v) || (v < 0 && r.n == 0)
  {
    match parseRound(CommandText(output))
    case None => NotANumber
    case Some(v) => Value(Clamp(v, allowNegative))
  }

  /** The random path: humidity takes the draw as it is, temperature centres it
      on zero and scales it to hundredths of a degree. */
  function RandomReading(k: Draw, allowNegative: bool): (r: int)
    ensures !allowNegative ==> 0 <= r <= 100 && r == k
    ensures allowNegative ==> -5000 <= r <= 5000 && r % 100 == 0
    ensures allowNegative ==> r / 100 + 50 == k
  {
    if !allowNegative then k else (k - 50) * 100
  }

  /** Distinct draws give distinct temperatures: no value of the range is hit
      twice. */
  lemma RandomTemperatureInjective(k1: Draw, k2: Draw)
    requires RandomReading(k1, true) == RandomReading(k2, true)
    ensures k1 == k2
  {
  }

  /** One sampling step. `script` is the command configured under the
      parameter name (absent: random path); `output` is what running it printed;
      `draw` is the random oracle's value for this call. */
  function ValueFromCommandOrRandom(script: Option<string>, output: string, draw: Draw,
                                    parseRound: string -> Option<int>, allowNegative: bool): (r: Reading)
    ensures script.None? ==> r.Value? && r.n == RandomReading(draw, allowNegative)
    ensures script.Some? ==> r == CommandReading(output, parseRound, allowNegative)
    ensures !allowNegative && r.Value? ==> r.n >= 0
  {
    if script.None? then Value(RandomReading(draw, allowNegative))
    else CommandReading(output, parseRound, allowNegative)
  }

  /** A command printing `'-5'` (quotes included) yields -5 for temperature and
      0 for humidity. */
  lemma QuotedNegativeOutput(script: string, draw: Draw, parseRound: string -> Option<int>)
    requires parseRound("-5") == Some(-5)
    ensures ValueFromCommandOrRandom(Some(script), "'-5'\n", draw, parseRound, true) == Value(-5)
    ensures ValueFromCommandOrRandom(Some(script), "'-5'\n", draw, parseRound, false) == Value(0)
  {
    QuotedNegativeText();
  }

  lemma QuotedNegativeText()
    ensures CommandText("'-5'\n") == "-5"
  {
    var quoted := "'-5'";
    assert !Text.IsWhitespace(quoted[0]) && !Text.IsWhitespace(quoted[3]);
    assert Text.AllWhitespace("\n");
    Text.TrimOfPadded([], quoted, "\n");
    assert [] + quoted + "\n" == "'-5'\n";
    StripQuotesRoundTrip('\'', "-5");
    assert ['\''] + "-5" + ['\''] == quoted;
  }
}
