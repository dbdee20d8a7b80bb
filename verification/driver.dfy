/** The FY3200S driver's ASCII side: `send_command`, `read_response` and one function
    per setter or query. The serial port is reduced to whether it is open and, for
    queries, the line the instrument answers with; each function returns the lines
    written to the port, in order. */
module Driver {
  import opened Wrappers
  import opened Decimal
  import opened PyText
  import opened Codec

  /** `send_command`: the command plus its newline terminator is written only when the
      port is open; otherwise nothing is written. */
  function SendCommand(open: bool, command: string): (w: seq<string>)
    ensures |w| == (if open then 1 else 0)
    ensures open ==> |w[0]| == |command| + 1 && w[0][..|command|] == command
                     && w[0][|command|] == '\n'
  {
    if open then [command + "\n"] else []
  }

  /** The command a written line carries under the reference decoder: the text
      before its newline. */
  function DecodeLine(line: string): Option<Command> {
    if |line| > 0 && line[|line| - 1] == '\n' then Decode(line[..|line| - 1]) else None
  }

  /** Formats `c` and sends it: nothing is written when the port is closed, the
      setter's guard drops the value, or the value has more digits than Python's
      formatting allows; what is written reads back as `c`. */
  function Issue(open: bool, c: Command): (w: seq<string>)
    ensures w == [] <==> !open || !Sendable(c)
    ensures w != [] ==> |w| == 1 && w[0] == Encode(c).value + "\n"
    ensures w != [] ==> DecodeLine(w[0]) == Some(c)
  {
    match Encode(c)
    case None => []
    case Some(text) =>
      DecodeEncode(c);
      assert (text + "\n")[..|text|] == text;
      SendCommand(open, text)
  }

  /** `w` is one newline-terminated line carrying `c`. */
  predicate OneLine(w: seq<string>, c: Command) {
    |w| == 1 && |w[0]| >= 2 && DecodeLine(w[0]) == Some(c)
  }

  /** A setter's single line, minus the terminator. */
  function Body(w: seq<string>): string
    requires |w| == 1 && |w[0]| >= 1
  {
    w[0][..|w[0]| - 1]
  }

  function SetWaveform(open: bool, channel: int, waveId: int): (w: seq<string>)
    ensures w == [] <==> !open || !Printable(waveId)
    ensures w != [] ==> OneLine(w, Waveform(ChannelOf(channel), waveId))
                        && w[0][0] == (if channel == 1 then 'b' else 'd')
  {
    Issue(open, Waveform(ChannelOf(channel), waveId))
  }

  function SetFrequency(open: bool, channel: int, centihertz: int): (w: seq<string>)
    ensures w == [] <==> !open || !Printable(centihertz)
    ensures w != [] ==> OneLine(w, Frequency(ChannelOf(channel), centihertz))
                        && w[0][0] == (if channel == 1 then 'b' else 'd')
  {
    Issue(open, Frequency(ChannelOf(channel), centihertz))
  }

  /** Amplitude in whole hundredths of a volt, printed with two decimals. */
  function SetAmplitude(open: bool, channel: int, hundredths: int): (w: seq<string>)
    ensures w == [] <==> !open
    ensures open ==> OneLine(w, Amplitude(ChannelOf(channel), hundredths))
                     && w[0][0] == (if channel == 1 then 'b' else 'd')
                     && |w[0]| >= 7 && w[0][|w[0]| - 4] == '.'
  {
    Fixed2Shape(hundredths);
    Issue(open, Amplitude(ChannelOf(channel), hundredths))
  }

  /** DC offset in whole hundredths of a volt, printed with two decimals. */
  function SetOffset(open: bool, channel: int, hundredths: int): (w: seq<string>)
    ensures w == [] <==> !open
    ensures open ==> OneLine(w, Offset(ChannelOf(channel), hundredths))
                     && w[0][0] == (if channel == 1 then 'b' else 'd')
                     && |w[0]| >= 7 && w[0][|w[0]| - 4] == '.'
  {
    Fixed2Shape(hundredths);
    Issue(open, Offset(ChannelOf(channel), hundredths))
  }

  /** Duty cycle in tenths of a percent, at least three digits. */
  function SetDutyCycle(open: bool, channel: int, duty: int): (w: seq<string>)
    ensures w == [] <==> !open || !Printable(duty)
    ensures w != [] ==> OneLine(w, DutyCycle(ChannelOf(channel), duty))
                        && w[0][0] == (if channel == 1 then 'b' else 'd')
                        && (0 <= duty < 1000 ==> |w[0]| == 6)
  {
    PaddedWidths(DutyCycle(ChannelOf(channel), duty));
    Issue(open, DutyCycle(ChannelOf(channel), duty))
  }

  /** Phase of the deputy channel in degrees, at least three digits. */
  function SetPhase(open: bool, degrees: int): (w: seq<string>)
    ensures w == [] <==> !open || !Printable(degrees)
    ensures w != [] ==> OneLine(w, Phase(degrees))
                        && (0 <= degrees < 1000 ==> |w[0]| == 6)
  {
    PaddedWidths(Phase(degrees));
    Issue(open, Phase(degrees))
  }

  /** Trigger source 0 (manual), 1 (external) or 2 (CH2); anything else is dropped. */
  function SetTriggerSource(open: bool, source: int): (w: seq<string>)
    ensures w == [] <==> !open || source !in {0, 1, 2}
    ensures w != [] ==> OneLine(w, TriggerSource(source)) && |w[0]| == 4
  {
    Issue(open, TriggerSource(source))
  }

  function SetTriggerCycles(open: bool, cycles: int): (w: seq<string>)
    ensures w == [] <==> !open || !Printable(cycles)
    ensures w != [] ==> OneLine(w, TriggerCycles(cycles))
                        && (0 <= cycles < 10_000_000 ==> |w[0]| == 10)
  {
    PaddedWidths(TriggerCycles(cycles));
    Issue(open, TriggerCycles(cycles))
  }

  /** Sweep mode 0 (linear) or 1 (logarithmic); anything else is dropped. */
  function SetSweepMode(open: bool, mode: int): (w: seq<string>)
    ensures w == [] <==> !open || mode !in {0, 1}
    ensures w != [] ==> OneLine(w, SweepMode(mode)) && |w[0]| == 4
  {
    Issue(open, SweepMode(mode))
  }

  function SetSweepTime(open: bool, seconds: int): (w: seq<string>)
    ensures w == [] <==> !open || !Printable(seconds)
    ensures w != [] ==> OneLine(w, SweepTime(seconds))
                        && (0 <= seconds < 100 ==> |w[0]| == 5)
  {
    PaddedWidths(SweepTime(seconds));
    Issue(open, SweepTime(seconds))
  }

  function StartSweep(open: bool): (w: seq<string>)
    ensures w == [] <==> !open
    ensures open ==> OneLine(w, SweepRun(true))
  {
    Issue(open, SweepRun(true))
  }

  function StopSweep(open: bool): (w: seq<string>)
    ensures w == [] <==> !open
    ensures open ==> OneLine(w, SweepRun(false))
  {
    Issue(open, SweepRun(false))
  }

  /** Save to register 0..99, sent without padding; anything else is dropped. */
  function SaveRegister(open: bool, register: int): (w: seq<string>)
    ensures w == [] <==> !open || !(0 <= register <= 99)
    ensures w != [] ==> OneLine(w, Command.SaveRegister(register))
                        && Body(w) == "bs" + NatText(register)
  {
    GuardedSetters(0, 0, register);
    Issue(open, Command.SaveRegister(register))
  }

  function SetSweepBegin(open: bool, centihertz: int): (w: seq<string>)
    ensures w == [] <==> !open || !Printable(centihertz)
    ensures w != [] ==> OneLine(w, SweepBegin(centihertz))
                        && (0 <= centihertz < 1_000_000_000 ==> |w[0]| == 12)
  {
    PaddedWidths(SweepBegin(centihertz));
    Issue(open, SweepBegin(centihertz))
  }

  function SetSweepEnd(open: bool, centihertz: int): (w: seq<string>)
    ensures w == [] <==> !open || !Printable(centihertz)
    ensures w != [] ==> OneLine(w, SweepEnd(centihertz))
                        && (0 <= centihertz < 1_000_000_000 ==> |w[0]| == 12)
  {
    PaddedWidths(SweepEnd(centihertz));
    Issue(open, SweepEnd(centihertz))
  }

  /** A command followed by the instrument's one-line answer. */
  datatype Exchange = Exchange(writes: seq<string>, response: Option<string>)

  /** `read_response`: the answer line with surrounding whitespace removed, or nothing
      when the port is closed. */
  function ReadResponse(open: bool, line: string): (r: Option<string>)
    ensures r.Some? <==> open
    ensures open ==> r == Some(Strip(line))
    ensures open ==> |r.value| <= |line|
                     && (r.value != [] ==> !IsSpace(r.value[0]) && !IsSpace(r.value[|r.value| - 1]))
  {
    if open then Some(Strip(line)) else None
  }

  /** Sends `c` and reads the answer; a closed port writes nothing and answers nothing. */
  function Query(open: bool, c: Command, line: string): (e: Exchange)
    requires Sendable(c)
    ensures e.writes == [] <==> !open
    ensures e.response.Some? <==> open
    ensures open ==> OneLine(e.writes, c) && e.response == Some(Strip(line))
  {
    Exchange(Issue(open, c), ReadResponse(open, line))
  }

  function GetModel(open: bool, line: string): (e: Exchange)
    ensures e.writes == [] <==> !open
    ensures e.response.Some? <==> open
    ensures open ==> |e.writes| == 1 && |e.writes[0]| >= 1 && Body(e.writes) == "a" && e.response == Some(Strip(line))
  {
    Query(open, ModelQuery, line)
  }

  function MeasureFrequency(open: bool, line: string): (e: Exchange)
    ensures e.writes == [] <==> !open
    ensures e.response.Some? <==> open
    ensures open ==> |e.writes| == 1 && |e.writes[0]| >= 1 && Body(e.writes) == "ce" && e.response == Some(Strip(line))
  {
    Query(open, Command.MeasureFrequency, line)
  }

  function MeasureCount(open: bool, line: string): (e: Exchange)
    ensures e.writes == [] <==> !open
    ensures e.response.Some? <==> open
    ensures open ==> |e.writes| == 1 && |e.writes[0]| >= 1 && Body(e.writes) == "cc" && e.response == Some(Strip(line))
  {
    Query(open, Command.MeasureCount, line)
  }

  function ClearCount(open: bool): (w: seq<string>)
    ensures w == [] <==> !open
    ensures open ==> |w| == 1 && |w[0]| >= 1 && Body(w) == "bc"
  {
    Issue(open, Command.ClearCount)
  }
}
