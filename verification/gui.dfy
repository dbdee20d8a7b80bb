/** The control window's own logic: which driver calls each button and field makes,
    under which guards, and how a count reply is turned into the text shown. The
    widgets themselves are reduced to the values they hold; every handler returns the
    lines it makes the driver write. */
module Gui {
  import opened Wrappers
  import opened Decimal
  import opened PyText
  import opened Codec
  import opened Driver

  /** What the window knows about the instrument: whether a driver object exists and
      whether its serial port is open. */
  datatype Link = Link(device: bool, open: bool) {
    /** The guard most handlers use: a device whose port is open. */
    predicate Connected() {
      device && open
    }
  }

  // ---------------------------------------------------------------------------
  // Channel panels and the waveform selector

  datatype Panel = Ch1 | Ch2

  /** The channel number a panel passes to the driver. */
  function ChannelNumber(p: Panel): (n: int)
    ensures ChannelOf(n) == (if p == Ch1 then Main else Deputy)
  {
    if p == Ch1 then 1 else 2
  }

  /** The waveform selector of the main channel, in combo order. */
  const Ch1Waves: seq<string> := [
    "Sine", "Square", "Pulse", "Triangle", "Sawtooth", "Reverse Sawtooth", "DC",
    "Lorentz Pulse", "Multi-tone", "Periodic Random", "ECG", "Trapezoidal Pulse",
    "Sinc Pulse", "Narrow Pulse", "Gaussian White Noise", "AM", "FM",
    "Arbitrary 1", "Arbitrary 2", "Arbitrary 3", "Arbitrary 4"]

  /** The deputy channel's selector: the same list without "Pulse". */
  const Ch2Waves: seq<string> := [
    "Sine", "Square", "Triangle", "Sawtooth", "Reverse Sawtooth", "DC",
    "Lorentz Pulse", "Multi-tone", "Periodic Random", "ECG", "Trapezoidal Pulse",
    "Sinc Pulse", "Narrow Pulse", "Gaussian White Noise", "AM", "FM",
    "Arbitrary 1", "Arbitrary 2", "Arbitrary 3", "Arbitrary 4"]

  function Waves(p: Panel): seq<string> {
    if p == Ch1 then Ch1Waves else Ch2Waves
  }

  function ArbitraryName(k: nat): string
    requires 1 <= k <= 4
  {
    "Arbitrary " + [DigitChar(k)]
  }

  /** `update_waveform`: the combo index is sent as the waveform id, on the panel's
      channel. Only the device's existence is checked here; the driver itself writes
      nothing while the port is closed, nor for an index too long to print. */
  function WaveformHandler(link: Link, p: Panel, index: int): (w: seq<string>)
    ensures w == [] <==> !link.Connected() || !Printable(index)
    ensures w != [] ==> OneLine(w, Waveform(if p == Ch1 then Main else Deputy, index))
  {
    if link.device then SetWaveform(link.open, ChannelNumber(p), index) else []
  }

  // ---------------------------------------------------------------------------
  // Phase, trigger source and trigger cycles

  /** `update_phase`: the deputy panel's phase field goes through `int()`; a text that
      is not an integer sends nothing. */
  function PhaseHandler(link: Link, text: string): (w: seq<string>)
    ensures w != [] <==> link.Connected() && ParseInt(text).Some?
    ensures w != [] ==> OneLine(w, Phase(ParseInt(text).value))
  {
    if !link.device then []
    else
      match ParseInt(text)
      case None => []
      case Some(p) =>
        ParseIntWithinLimit(text, p);
        SetPhase(link.open, p)
  }

  datatype TriggerButton = Manual | External | Ch2Trigger

  /** The source number each trigger button passes. */
  function SourceOf(b: TriggerButton): (s: int)
    ensures s in {0, 1, 2}
  {
    match b
    case Manual => 0
    case External => 1
    case Ch2Trigger => 2
  }

  /** `set_trigger_source`: nothing is sent unless connected. */
  function TriggerSourceHandler(link: Link, b: TriggerButton): (w: seq<string>)
    ensures w == [] <==> !link.Connected()
    ensures w != [] ==> OneLine(w, TriggerSource(SourceOf(b)))
  {
    if !link.Connected() then [] else SetTriggerSource(true, SourceOf(b))
  }

  /** `set_trigger_cycles`: nothing is sent unless connected, nor when the field's text
      is not an integer; otherwise the integer itself goes to the driver. */
  function TriggerCyclesHandler(link: Link, text: string): (w: seq<string>)
    ensures w != [] <==> link.Connected() && ParseInt(text).Some?
    ensures w != [] ==> OneLine(w, TriggerCycles(ParseInt(text).value))
  {
    if !link.Connected() then []
    else
      match ParseInt(text)
      case None => []
      case Some(n) =>
        ParseIntWithinLimit(text, n);
        SetTriggerCycles(true, n)
  }

  // ---------------------------------------------------------------------------
  // Sweeps

  /** The commands a sweep start sends, in order: begin, end, time, mode, run. */
  function SweepCommands(begin: int, end: int, seconds: int, mode: int): seq<Command> {
    [SweepBegin(begin), SweepEnd(end), SweepTime(seconds), SweepMode(mode), SweepRun(true)]
  }

  /** The driver calls shared by both sweep buttons once the fields have been read.
      They are made outside any `try`, so a setter whose f-string raises ends the
      handler there, after the lines already written; the mode setter never raises. */
  function SweepSetup(begin: int, end: int, seconds: int, mode: int): seq<string> {
    if !Printable(begin) then []
    else if !Printable(end) then SetSweepBegin(true, begin)
    else if !Printable(seconds) then SetSweepBegin(true, begin) + SetSweepEnd(true, end)
    else
      SetSweepBegin(true, begin) + SetSweepEnd(true, end) + SetSweepTime(true, seconds)
        + SetSweepMode(true, mode) + StartSweep(true)
  }

  /** `start_lin_sweep` and `start_log_sweep`, told apart by `mode`. `begin` and `end`
      are the Begin and End fields already converted to centihertz, `None` when the
      field is not a number. Coming from a float, they never reach Python's digit
      ceiling in the window; the model takes any integer and follows the code. */
  function SweepHandler(link: Link, begin: Option<int>, end: Option<int>, timeText: string,
                        mode: int): seq<string>
  {
    if !link.Connected() then []
    else if begin.None? || end.None? then []
    else
      match ParseInt(timeText)
      case None => []
      case Some(t) => SweepSetup(begin.value, end.value, t, mode)
  }

  function LinSweepHandler(link: Link, begin: Option<int>, end: Option<int>, timeText: string)
    : (w: seq<string>)
    ensures w == [] <==> !link.Connected() || begin.None? || end.None? || ParseInt(timeText).None?
                         || !Printable(begin.value)
    ensures w != [] ==> if Printable(end.value) then |w| == 5 else |w| == 1
  {
    SweepLines(link, begin, end, timeText, 0);
    SweepHandler(link, begin, end, timeText, 0)
  }

  function LogSweepHandler(link: Link, begin: Option<int>, end: Option<int>, timeText: string)
    : (w: seq<string>)
    ensures w == [] <==> !link.Connected() || begin.None? || end.None? || ParseInt(timeText).None?
                         || !Printable(begin.value)
    ensures w != [] ==> if Printable(end.value) then |w| == 5 else |w| == 1
  {
    SweepLines(link, begin, end, timeText, 1);
    SweepHandler(link, begin, end, timeText, 1)
  }

  /** `stop_sweep`: `br0`, and only when connected. */
  function StopSweepHandler(link: Link): (w: seq<string>)
    ensures w == [] <==> !link.Connected()
    ensures w != [] ==> OneLine(w, SweepRun(false))
  {
    if !link.Connected() then [] else StopSweep(true)
  }

  // ---------------------------------------------------------------------------
  // Count measurement

  predicate IsSign(c: char) { c == '-' || c == '+' }

  /** Whether `[-+]?[0-9]+` matches starting at index `i`: a digit there, or a sign
      followed by a digit. At a sign the optional sign is taken first, and without it
      the match would need a digit at the sign's own place. */
  predicate TokenAt(s: string, i: nat) {
    i < |s| && (IsDigit(s[i]) || (IsSign(s[i]) && i + 1 < |s| && IsDigit(s[i + 1])))
  }

  /** Where `re.search` finds its match in `s[i..]`: the leftmost start. */
  function FindToken(s: string, i: nat): (k: Option<nat>)
    requires i <= |s|
    ensures k.Some? ==> i <= k.value < |s| && TokenAt(s, k.value)
    ensures forall j :: i <= j < (if k.Some? then k.value else |s|) ==> !TokenAt(s, j)
    decreases |s| - i
  {
    if i == |s| then None
    else if TokenAt(s, i) then Some(i)
    else FindToken(s, i + 1)
  }

  /** The end of the run of digits that starts at `j`. */
  function DigitRunEnd(s: string, j: nat): (e: nat)
    requires j <= |s|
    ensures j <= e <= |s|
    ensures forall m :: j <= m < e ==> IsDigit(s[m])
    ensures e < |s| ==> !IsDigit(s[e])
    decreases |s| - j
  {
    if j < |s| && IsDigit(s[j]) then DigitRunEnd(s, j + 1) else j
  }

  /** Where the digits of a match starting at `k` begin: after the sign, if any. */
  function DigitsFrom(s: string, k: nat): nat
    requires TokenAt(s, k)
  {
    if IsDigit(s[k]) then k else k + 1
  }

  /** `m.group(0)`: the matched text, the `+` quantifier taking every digit it can. */
  function Token(s: string): Option<string> {
    match FindToken(s, 0)
    case None => None
    case Some(k) => Some(s[k..DigitRunEnd(s, DigitsFrom(s, k))])
  }

  /** The count field's new text for the reply `resp`: the reply unchanged when no
      integer token is found or `int()` refuses it, else `str(int(token))`. */
  function CountDisplay(resp: string): string {
    match Token(resp)
    case None => resp
    case Some(t) =>
      match ParseInt(t)
      case None => resp
      case Some(n) => IntText(n)
  }

  /** One poll of the count: the lines written and the field's new text, `None` when
      the field is left as it was. */
  datatype Poll = Poll(writes: seq<string>, display: Option<string>)

  /** `_poll_measure_count`: while connected, `cc` is sent and the stripped answer
      line is shown through `CountDisplay`; otherwise nothing happens. */
  function PollCount(link: Link, line: string): (r: Poll)
    ensures !link.Connected() ==> r == Poll([], None)
    ensures link.Connected() ==> |r.writes| == 1 && |r.writes[0]| >= 1
                                 && Body(r.writes) == "cc"
                                 && r.display == Some(CountDisplay(Strip(line)))
  {
    if !link.Connected() then Poll([], None)
    else
      var e := Driver.MeasureCount(true, line);
      Poll(e.writes, Some(CountDisplay(e.response.value)))
  }

  /** `clear_count`: `bc`, and only when connected. */
  function ClearCountHandler(link: Link): (w: seq<string>)
    ensures w == [] <==> !link.Connected()
    ensures w != [] ==> |w| == 1 && |w[0]| >= 1 && Body(w) == "bc"
  {
    if !link.Connected() then [] else Driver.ClearCount(true)
  }

  // ---------------------------------------------------------------------------
  // Lemmas

  /** Each "Arbitrary k" entry is at index 16 + k on the main channel and 15 + k on the
      deputy channel, and nowhere else; the lists hold 21 and 20 entries. */
  lemma ArbitraryIds(k: nat)
    requires 1 <= k <= 4
    ensures |Ch1Waves| == 21 && |Ch2Waves| == 20
    ensures forall j :: 0 <= j < |Ch1Waves| ==> (Ch1Waves[j] == ArbitraryName(k) <==> j == 16 + k)
    ensures forall j :: 0 <= j < |Ch2Waves| ==> (Ch2Waves[j] == ArbitraryName(k) <==> j == 15 + k)
  {
    var a := ArbitraryName(k);
    assert |a| == 11 && a[10] == DigitChar(k);
    forall j | 0 <= j < |Ch1Waves|
      ensures Ch1Waves[j] == a <==> j == 16 + k
    {
      if j < 17 {
        assert |Ch1Waves[j]| != 11;
      } else {
        assert Ch1Waves[j] == "Arbitrary " + [DigitChar(j - 16)];
      }
    }
    forall j | 0 <= j < |Ch2Waves|
      ensures Ch2Waves[j] == a <==> j == 15 + k
    {
      if j < 16 {
        assert |Ch2Waves[j]| != 11;
      } else {
        assert Ch2Waves[j] == "Arbitrary " + [DigitChar(j - 15)];
      }
    }
  }

  /** The five lines of a sweep start decode, in order, to begin, end, time, mode and
      run. */
  lemma SweepSetupLines(begin: int, end: int, seconds: int, mode: int)
    requires mode in {0, 1} && Printable(begin) && Printable(end) && Printable(seconds)
    ensures var w := SweepSetup(begin, end, seconds, mode);
      && |w| == 5
      && forall i :: 0 <= i < 5 ==> DecodeLine(w[i]) == Some(SweepCommands(begin, end, seconds, mode)[i])
  {
    SweepSetters(begin, end, seconds, mode);
    FiveLines(SweepSetup(begin, end, seconds, mode), SetSweepBegin(true, begin), SetSweepEnd(true, end),
              SetSweepTime(true, seconds), SetSweepMode(true, mode), StartSweep(true),
              SweepCommands(begin, end, seconds, mode));
  }

  /** Each of the five setters writes its one line. */
  lemma SweepSetters(begin: int, end: int, seconds: int, mode: int)
    requires mode in {0, 1} && Printable(begin) && Printable(end) && Printable(seconds)
    ensures SweepSetup(begin, end, seconds, mode)
         == SetSweepBegin(true, begin) + SetSweepEnd(true, end) + SetSweepTime(true, seconds)
            + SetSweepMode(true, mode) + StartSweep(true)
    ensures OneLine(SetSweepBegin(true, begin), SweepBegin(begin))
    ensures OneLine(SetSweepEnd(true, end), SweepEnd(end))
    ensures OneLine(SetSweepTime(true, seconds), SweepTime(seconds))
    ensures OneLine(SetSweepMode(true, mode), SweepMode(mode))
    ensures OneLine(StartSweep(true), SweepRun(true))
  {
  }

  lemma FiveLines(w: seq<string>, b: seq<string>, e: seq<string>, t: seq<string>, m: seq<string>,
                  r: seq<string>, cs: seq<Command>)
    requires w == b + e + t + m + r && |cs| == 5
    requires OneLine(b, cs[0]) && OneLine(e, cs[1]) && OneLine(t, cs[2]) && OneLine(m, cs[3])
             && OneLine(r, cs[4])
    ensures |w| == 5 && forall i :: 0 <= i < 5 ==> DecodeLine(w[i]) == Some(cs[i])
  {
    assert w == [b[0], e[0], t[0], m[0], r[0]];
  }

  /** A setter that raises ends the sweep start early: nothing at all when the begin
      frequency is too long to print, the begin line alone when the end frequency is,
      and the begin and end lines when the time is. */
  lemma SweepSetupRaises(begin: int, end: int, seconds: int, mode: int)
    ensures var w := SweepSetup(begin, end, seconds, mode);
      && (!Printable(begin) ==> w == [])
      && (Printable(begin) && !Printable(end) ==>
            |w| == 1 && DecodeLine(w[0]) == Some(SweepBegin(begin)))
      && (Printable(begin) && Printable(end) && !Printable(seconds) ==>
            |w| == 2 && DecodeLine(w[0]) == Some(SweepBegin(begin))
            && DecodeLine(w[1]) == Some(SweepEnd(end)))
  {
  }

  /** Both sweep buttons send, in order, the begin frequency, the end frequency, the
      time, their mode and the run command, and nothing else; nothing at all is sent
      while disconnected or when a field does not parse. */
  lemma SweepLines(link: Link, begin: Option<int>, end: Option<int>, timeText: string, mode: int)
    requires mode in {0, 1}
    ensures var w := SweepHandler(link, begin, end, timeText, mode);
      && (w == [] <==> !link.Connected() || begin.None? || end.None? || ParseInt(timeText).None?
                         || !Printable(begin.value))
      && (w != [] && Printable(end.value) ==>
            && |w| == 5
            && forall i :: 0 <= i < 5 ==>
                 DecodeLine(w[i]) == Some(SweepCommands(begin.value, end.value, ParseInt(timeText).value, mode)[i]))
      && (w != [] && !Printable(end.value) ==>
            |w| == 1 && DecodeLine(w[0]) == Some(SweepBegin(begin.value)))
  {
    if link.Connected() && begin.Some? && end.Some? && ParseInt(timeText).Some? {
      var t := ParseInt(timeText).value;
      ParseIntWithinLimit(timeText, t);
      SweepSetupRaises(begin.value, end.value, t, mode);
      if Printable(begin.value) && Printable(end.value) {
        SweepSetupLines(begin.value, end.value, t, mode);
      }
    }
  }

  /** The three trigger buttons send three different sources: `tt0`, `tt1`, `tt2`. */
  lemma TriggerButtonsDistinct(link: Link, a: TriggerButton, b: TriggerButton)
    requires link.Connected() && a != b
    ensures TriggerSourceHandler(link, a) != TriggerSourceHandler(link, b)
    ensures Body(TriggerSourceHandler(link, Manual)) == "tt0"
    ensures Body(TriggerSourceHandler(link, External)) == "tt1"
    ensures Body(TriggerSourceHandler(link, Ch2Trigger)) == "tt2"
  {
    var wa := TriggerSourceHandler(link, a);
    var wb := TriggerSourceHandler(link, b);
    assert DecodeLine(wa[0]) != DecodeLine(wb[0]);
  }

  /** A canonical decimal typed into the cycles field reaches the instrument as that
      number; a text with no digit at all sends nothing. */
  lemma TriggerCyclesText(link: Link, n: int, text: string)
    requires link.Connected()
    requires Printable(n)
    requires forall k :: 0 <= k < |text| ==> !IsDigit(text[k])
    ensures OneLine(TriggerCyclesHandler(link, IntText(n)), TriggerCycles(n))
    ensures TriggerCyclesHandler(link, text) == []
  {
    ParseIntOfIntText(n);
    ParseIntNeedsDigit(text);
  }

  /** `int()` of a matched token `t` whose digits are `d`: the sign is applied to the
      digits' value, and only the digit limit can refuse it. */
  lemma ParseIntOfToken(t: string, d: string, v: int)
    requires |t| >= 1 && (IsDigit(t[0]) || IsSign(t[0]))
    requires AllDigits(d) && |d| >= 1 && d == if IsDigit(t[0]) then t else t[1..]
    requires v == if t[0] == '-' then 0 - DigitsValue(d) else DigitsValue(d)
    ensures |d| > MaxStrDigits ==> ParseInt(t) == None
    ensures |d| <= MaxStrDigits ==> ParseInt(t) == Some(v)
  {
    StripUnpadded(t, Numeric);
    ParseStrippedDigits(t, d);
  }

  /** The leftmost match: when `k` is the first place a token starts and `e` ends the
      digit run after its sign, the match is `s[k..e]`. */
  lemma LeftmostToken(s: string, k: nat, e: nat)
    requires TokenAt(s, k) && forall j :: 0 <= j < k ==> !TokenAt(s, j)
    requires DigitsFrom(s, k) < e <= |s|
    requires forall m :: DigitsFrom(s, k) <= m < e ==> IsDigit(s[m])
    requires e == |s| || !IsDigit(s[e])
    ensures Token(s) == Some(s[k..e])
  {
    var r := DigitRunEnd(s, DigitsFrom(s, k));
    assert FindToken(s, 0) == Some(k);
    assert r == e;
  }

  /** A reply holding no integer token is displayed unchanged. */
  lemma CountDisplayRaw(resp: string)
    requires forall j :: 0 <= j < |resp| ==> !TokenAt(resp, j)
    ensures CountDisplay(resp) == resp
  {
    assert FindToken(resp, 0) == None;
  }

  /** The sign applied to the value of the digits of the match starting at `k`. */
  function TokenValue(s: string, k: nat, e: nat): int
    requires TokenAt(s, k) && DigitsFrom(s, k) <= e <= |s|
    requires forall m :: DigitsFrom(s, k) <= m < e ==> IsDigit(s[m])
  {
    var digits := s[DigitsFrom(s, k)..e];
    if s[k] == '-' then 0 - DigitsValue(digits) else DigitsValue(digits)
  }

  /** `int(m.group(0))` for the leftmost match `s[k..e]`: its signed value, refused
      only past the digit limit. */
  lemma TokenParse(s: string, k: nat, e: nat)
    requires TokenAt(s, k) && forall j :: 0 <= j < k ==> !TokenAt(s, j)
    requires DigitsFrom(s, k) < e <= |s|
    requires forall m :: DigitsFrom(s, k) <= m < e ==> IsDigit(s[m])
    requires e == |s| || !IsDigit(s[e])
    ensures Token(s) == Some(s[k..e])
    ensures e - DigitsFrom(s, k) > MaxStrDigits ==> ParseInt(s[k..e]) == None
    ensures e - DigitsFrom(s, k) <= MaxStrDigits ==> ParseInt(s[k..e]) == Some(TokenValue(s, k, e))
  {
    LeftmostToken(s, k, e);
    var t := s[k..e];
    var digits := s[DigitsFrom(s, k)..e];
    if IsDigit(t[0]) {
      assert t == digits;
    } else {
      assert t[1..] == digits;
    }
    ParseIntOfToken(t, digits, TokenValue(s, k, e));
  }

  /** Otherwise the display is `str()` of the leftmost token's value: the sign applied
      to the value of its digits, so leading zeros and a `+` disappear. A token longer
      than Python's digit limit is refused and the reply is shown unchanged. */
  lemma CountDisplayValue(resp: string, k: nat, e: nat)
    requires TokenAt(resp, k) && forall j :: 0 <= j < k ==> !TokenAt(resp, j)
    requires DigitsFrom(resp, k) < e <= |resp|
    requires forall m :: DigitsFrom(resp, k) <= m < e ==> IsDigit(resp[m])
    requires e == |resp| || !IsDigit(resp[e])
    ensures e - DigitsFrom(resp, k) <= MaxStrDigits ==> CountDisplay(resp) == IntText(TokenValue(resp, k, e))
    ensures e - DigitsFrom(resp, k) > MaxStrDigits ==> CountDisplay(resp) == resp
  {
    TokenParse(resp, k, e);
    DisplayOfToken(resp, resp[k..e]);
  }

  /** The display once the match `t` has been found. */
  lemma DisplayOfToken(resp: string, t: string)
    requires Token(resp) == Some(t)
    ensures CountDisplay(resp) == if ParseInt(t).Some? then IntText(ParseInt(t).value) else resp
  {
  }

  /** Showing the count is idempotent: feeding the displayed text back in shows it
      unchanged. */
  lemma CountDisplayIdempotent(resp: string)
    ensures CountDisplay(CountDisplay(resp)) == CountDisplay(resp)
  {
    match Token(resp)
    case None =>
    case Some(t) =>
      DisplayOfToken(resp, t);
      match ParseInt(t)
      case None =>
      case Some(v) =>
        ParseIntWithinLimit(t, v);
        DisplayOfCanonical(v);
  }

  /** A labelled count reply shows the number alone. */
  lemma CountExampleLabelled()
    ensures CountDisplay("count=77") == "77"
  {
    var resp := "count=77";
    LabelledReply(resp);
    CountDisplayValue(resp, 6, 8);
    SeventySeven();
  }

  lemma SeventySeven()
    ensures IntText(77) == "77"
  {
    assert NatText(77) == NatText(7) + ['7'];
  }

  /** The token of "count=77" starts at its seventh character and has the value 77. */
  lemma LabelledReply(resp: string)
    requires resp == "count=77"
    ensures |resp| == 8 && TokenAt(resp, 6) && forall j :: 0 <= j < 6 ==> !TokenAt(resp, j)
    ensures DigitsFrom(resp, 6) == 6 && forall m :: 6 <= m < 8 ==> IsDigit(resp[m])
    ensures TokenValue(resp, 6, 8) == 77
  {
    assert resp == ['c', 'o', 'u', 'n', 't', '=', '7', '7'];
    var digits := resp[6..8];
    assert digits == ['7', '7'] && digits[..1] == ['7'] && ['7'][..0] == [];
    assert DigitsValue(['7']) == 7;
    assert DigitsValue(digits) == 77;
  }

  /** An error message from the instrument is shown as it came. */
  lemma CountExampleError()
    ensures CountDisplay("ERR") == "ERR"
  {
    var err := "ERR";
    assert err == ['E', 'R', 'R'];
    assert forall j :: 0 <= j < 3 ==> !IsDigit(err[j]) && !IsSign(err[j]);
    CountDisplayRaw(err);
  }

  /** `str(n)` shows itself again whenever `int()` can read it back. */
  lemma DisplayOfCanonical(v: int)
    requires Printable(v)
    ensures CountDisplay(IntText(v)) == IntText(v)
  {
    var s := IntText(v);
    CanonicalToken(v);
    CountDisplayValue(s, 0, |s|);
  }

  /** A canonical decimal is one whole token starting at its first character, and that
      token's value is the number printed. */
  lemma CanonicalToken(v: int)
    ensures var s := IntText(v);
      && TokenAt(s, 0) && DigitsFrom(s, 0) < |s|
      && (forall m :: DigitsFrom(s, 0) <= m < |s| ==> IsDigit(s[m]))
      && |s| - DigitsFrom(s, 0) == |NatText(if v < 0 then -v else v)|
      && TokenValue(s, 0, |s|) == v
  {
    var s := IntText(v);
    var m := if v < 0 then -v else v;
    NatTextValue(m);
    if v < 0 {
      assert s[1..] == NatText(m);
      assert s[DigitsFrom(s, 0)..|s|] == NatText(m);
    } else {
      assert s[DigitsFrom(s, 0)..|s|] == NatText(m);
    }
  }
}
