/** The FY3200S ASCII command grammar: one command per line, built from a prefix
    (`b` for the main channel, `d` for the deputy channel, or a fixed global prefix),
    a one-letter mnemonic and a decimal payload of fixed minimum width. */
module Codec {
  import opened Wrappers
  import opened Decimal

  datatype Channel = Main | Deputy

  /** The driver's channel argument is a plain integer: 1 selects the main channel and
      every other value selects the deputy channel. */
  function ChannelOf(n: int): (ch: Channel)
    ensures ch == Main <==> n == 1
  {
    if n == 1 then Main else Deputy
  }

  function Prefix(ch: Channel): char {
    match ch
    case Main => 'b'
    case Deputy => 'd'
  }

  /** One instrument command with its semantic parameter. Frequencies are centihertz,
      amplitudes and offsets whole hundredths of a volt, duty cycle tenths of a percent. */
  datatype Command =
    | Waveform(ch: Channel, id: int)
    | Frequency(ch: Channel, centihertz: int)
    | Amplitude(ch: Channel, hundredths: int)
    | Offset(ch: Channel, hundredths: int)
    | DutyCycle(ch: Channel, permille: int)
    | Phase(degrees: int)
    | TriggerSource(source: int)
    | TriggerCycles(cycles: int)
    | SweepMode(mode: int)
    | SweepTime(seconds: int)
    | SweepBegin(centihertz: int)
    | SweepEnd(centihertz: int)
    | SweepRun(run: bool)
    | SaveRegister(register: int)
    | ModelQuery
    | MeasureFrequency
    | MeasureCount
    | ClearCount

  /** The command text the driver's f-string lays out for `c`, or `None` when the
      driver's own guard drops it: a trigger source outside {0,1,2}, a sweep mode
      outside {0,1} or a register outside 0..99. */
  function Format(c: Command): Option<string> {
    match c
    case Waveform(ch, id) => Some([Prefix(ch), 'w'] + IntText(id))
    case Frequency(ch, f) => Some([Prefix(ch), 'f'] + IntText(f))
    case Amplitude(ch, h) => Some([Prefix(ch), 'a'] + Fixed2(h))
    case Offset(ch, h) => Some([Prefix(ch), 'o'] + Fixed2(h))
    case DutyCycle(ch, d) => Some([Prefix(ch), 'd'] + ZeroPad(d, 3))
    case Phase(p) => Some("dp" + ZeroPad(p, 3))
    case TriggerSource(s) => if 0 <= s <= 2 then Some("tt" + IntText(s)) else None
    case TriggerCycles(n) => Some("tn" + ZeroPad(n, 7))
    case SweepMode(m) => if 0 <= m <= 1 then Some("bm" + IntText(m)) else None
    case SweepTime(t) => Some("bt" + ZeroPad(t, 2))
    case SweepBegin(f) => Some("bb" + ZeroPad(f, 9))
    case SweepEnd(f) => Some("be" + ZeroPad(f, 9))
    case SweepRun(run) => Some(if run then "br1" else "br0")
    case SaveRegister(r) => if 0 <= r <= 99 then Some("bs" + IntText(r)) else None
    case ModelQuery => Some("a")
    case MeasureFrequency => Some("ce")
    case MeasureCount => Some("cc")
    case ClearCount => Some("bc")
  }

  /** The integer the setter's f-string converts to decimal text, for the setters
      that convert one without a guard first. The guarded values (trigger source,
      sweep mode, register) are small whenever they are formatted, and amplitude and
      offset are floats, whose formatting has no digit ceiling. */
  function FormattedInt(c: Command): Option<int> {
    match c
    case Waveform(_, id) => Some(id)
    case Frequency(_, f) => Some(f)
    case DutyCycle(_, d) => Some(d)
    case Phase(p) => Some(p)
    case TriggerCycles(n) => Some(n)
    case SweepTime(t) => Some(t)
    case SweepBegin(f) => Some(f)
    case SweepEnd(f) => Some(f)
    case _ => None
  }

  /** What the driver writes for `c`: the formatted text, or `None` when the guard
      drops the value or the f-string raises ValueError because the integer has more
      digits than Python converts. Either way nothing reaches the port. */
  function Encode(c: Command): Option<string> {
    if FormattedInt(c).Some? && !Printable(FormattedInt(c).value) then None
    else Format(c)
  }

  /** Whether the driver emits anything at all for `c`. */
  predicate Sendable(c: Command) {
    Encode(c).Some?
  }

  /** The fixed minimum payload width of the zero-padded commands, with the padded
      value; `None` for commands whose payload is not zero-padded. */
  function PaddedField(c: Command): Option<(int, nat)> {
    match c
    case DutyCycle(_, d) => Some((d, 3))
    case Phase(p) => Some((p, 3))
    case TriggerCycles(n) => Some((n, 7))
    case SweepTime(t) => Some((t, 2))
    case SweepBegin(f) => Some((f, 9))
    case SweepEnd(f) => Some((f, 9))
    case _ => None
  }

  function WithInt(s: string, make: int -> Command): Option<Command> {
    match SignedValue(s)
    case Some(v) => Some(make(v))
    case None => None
  }

  function WithFixed2(s: string, make: int -> Command): Option<Command> {
    match Fixed2Value(s)
    case Some(v) => Some(make(v))
    case None => None
  }

  /** A reference decoder for the grammar: reads one command text back into the
      command it denotes. It is the inverse the round trip is stated against; the
      instrument's own parser is not part of this model. */
  function Decode(line: string): Option<Command> {
    if line == "a" then Some(ModelQuery)
    else if |line| < 2 then None
    else DecodeHead(line[0], line[1], line[2..])
  }

  /** Decodes the payload `body` that follows the two-letter head `p m`. */
  function DecodeHead(p: char, m: char, body: string): Option<Command> {
    match p
    case 'b' =>
      (match m
       case 'm' => WithInt(body, v => SweepMode(v))
       case 't' => WithInt(body, v => SweepTime(v))
       case 'b' => WithInt(body, v => SweepBegin(v))
       case 'e' => WithInt(body, v => SweepEnd(v))
       case 's' => WithInt(body, v => SaveRegister(v))
       case 'c' => if body == [] then Some(ClearCount) else None
       case 'r' => if body == "1" then Some(SweepRun(true))
                   else if body == "0" then Some(SweepRun(false)) else None
       case _ => DecodeChannel(Main, m, body))
    case 'd' =>
      (match m
       case 'p' => WithInt(body, v => Phase(v))
       case _ => DecodeChannel(Deputy, m, body))
    case 't' =>
      (match m
       case 't' => WithInt(body, v => TriggerSource(v))
       case 'n' => WithInt(body, v => TriggerCycles(v))
       case _ => None)
    case 'c' =>
      (match m
       case 'e' => if body == [] then Some(MeasureFrequency) else None
       case 'c' => if body == [] then Some(MeasureCount) else None
       case _ => None)
    case _ => None
  }

  /** Decodes a per-channel command once the prefix has fixed its channel. */
  function DecodeChannel(ch: Channel, m: char, body: string): Option<Command> {
    match m
    case 'w' => WithInt(body, v => Waveform(ch, v))
    case 'f' => WithInt(body, v => Frequency(ch, v))
    case 'a' => WithFixed2(body, v => Amplitude(ch, v))
    case 'o' => WithFixed2(body, v => Offset(ch, v))
    case 'd' => WithInt(body, v => DutyCycle(ch, v))
    case _ => None
  }

  // ---------------------------------------------------------------------------
  // Lemmas

  lemma DecodeSplit(head: string, payload: string)
    requires |head| == 2
    ensures (head + payload)[..2] == head && (head + payload)[2..] == payload
    ensures Decode(head + payload) == DecodeHead(head[0], head[1], payload)
  {
    var line := head + payload;
    assert line[2..] == payload;
    assert |line| != 1;
  }

  /** Decoding a two-letter head followed by a signed decimal payload. */
  lemma DecodeIntPayload(head: string, v: int, payload: string, c: Command)
    requires |head| == 2 && SignedValue(payload) == Some(v)
    requires DecodeHead(head[0], head[1], payload) == WithInt(payload, _ => c)
    ensures Decode(head + payload) == Some(c)
  {
    DecodeSplit(head, payload);
  }

  /** The reference decoder reads back exactly the command the driver meant: formatting
      is lossless for every command the driver sends, and no two commands share a text. */
  lemma DecodeEncode(c: Command)
    requires Sendable(c)
    ensures Decode(Encode(c).value) == Some(c)
  {
    if c.Waveform? || c.Frequency? || c.Amplitude? || c.Offset? || c.DutyCycle? {
      DecodeEncodeChannel(c);
    } else if PaddedField(c).Some? {
      DecodeEncodePadded(c);
    } else {
      DecodeEncodeOther(c);
    }
  }

  lemma ChannelHead(ch: Channel, m: char, body: string)
    requires m in "wfaod"
    ensures DecodeHead(Prefix(ch), m, body) == DecodeChannel(ch, m, body)
  {
    match ch
    case Main =>
    case Deputy =>
  }

  lemma DecodeEncodeChannel(c: Command)
    requires Sendable(c)
    requires c.Waveform? || c.Frequency? || c.Amplitude? || c.Offset? || c.DutyCycle?
    ensures Decode(Encode(c).value) == Some(c)
  {
    var m := match c
      case Waveform(_, _) => 'w'
      case Frequency(_, _) => 'f'
      case Amplitude(_, _) => 'a'
      case Offset(_, _) => 'o'
      case DutyCycle(_, _) => 'd';
    var payload := Encode(c).value[2..];
    assert Encode(c).value == [Prefix(c.ch), m] + payload;
    DecodeSplit([Prefix(c.ch), m], payload);
    ChannelHead(c.ch, m, payload);
    match c
    case Waveform(_, id) => IntTextRoundTrip(id);
    case Frequency(_, f) => IntTextRoundTrip(f);
    case Amplitude(_, v) => Fixed2RoundTrip(v);
    case Offset(_, v) => Fixed2RoundTrip(v);
    case DutyCycle(_, d) => ZeroPadRoundTrip(d, 3);
  }

  lemma DecodeEncodePadded(c: Command)
    requires Sendable(c) && PaddedField(c).Some?
    ensures Decode(Encode(c).value) == Some(c)
  {
    match c
    case DutyCycle(_, _) => DecodeEncodeChannel(c);
    case Phase(p) => PhaseRoundTrip(p);
    case TriggerCycles(n) => TriggerCyclesRoundTrip(n);
    case SweepTime(t) => SweepTimeRoundTrip(t);
    case SweepBegin(f) => SweepBeginRoundTrip(f);
    case SweepEnd(f) => SweepEndRoundTrip(f);
  }

  lemma PhaseRoundTrip(p: int)
    requires Sendable(Phase(p))
    ensures Decode(Encode(Phase(p)).value) == Some(Phase(p))
  {
    PaddedRoundTrip("dp", p, 3, Phase(p));
  }

  lemma TriggerCyclesRoundTrip(n: int)
    requires Sendable(TriggerCycles(n))
    ensures Decode(Encode(TriggerCycles(n)).value) == Some(TriggerCycles(n))
  {
    PaddedRoundTrip("tn", n, 7, TriggerCycles(n));
  }

  lemma SweepTimeRoundTrip(t: int)
    requires Sendable(SweepTime(t))
    ensures Decode(Encode(SweepTime(t)).value) == Some(SweepTime(t))
  {
    PaddedRoundTrip("bt", t, 2, SweepTime(t));
  }

  lemma SweepBeginRoundTrip(f: int)
    requires Sendable(SweepBegin(f))
    ensures Decode(Encode(SweepBegin(f)).value) == Some(SweepBegin(f))
  {
    PaddedRoundTrip("bb", f, 9, SweepBegin(f));
  }

  lemma SweepEndRoundTrip(f: int)
    requires Sendable(SweepEnd(f))
    ensures Decode(Encode(SweepEnd(f)).value) == Some(SweepEnd(f))
  {
    PaddedRoundTrip("be", f, 9, SweepEnd(f));
  }

  /** A two-letter head followed by `v` zero-padded to width `w` decodes to `c`. */
  lemma PaddedRoundTrip(head: string, v: int, w: nat, c: Command)
    requires |head| == 2 && Sendable(c) && Encode(c).value == head + ZeroPad(v, w)
    requires SignedValue(ZeroPad(v, w)) == Some(v) ==> DecodeHead(head[0], head[1], ZeroPad(v, w)) == Some(c)
    ensures Decode(Encode(c).value) == Some(c)
  {
    ZeroPadRoundTrip(v, w);
    DecodeSplit(head, ZeroPad(v, w));
  }

  lemma DecodeEncodeOther(c: Command)
    requires Sendable(c)
    requires !(c.Waveform? || c.Frequency? || c.Amplitude? || c.Offset?) && PaddedField(c).None?
    ensures Decode(Encode(c).value) == Some(c)
  {
    match c
    case TriggerSource(v) => IntTextRoundTrip(v); DecodeIntPayload("tt", v, IntText(v), c);
    case SweepMode(v) => IntTextRoundTrip(v); DecodeIntPayload("bm", v, IntText(v), c);
    case SaveRegister(v) => IntTextRoundTrip(v); DecodeIntPayload("bs", v, IntText(v), c);
    case SweepRun(run) => DecodeSplit("br", [if run then '1' else '0']);
    case ModelQuery =>
    case MeasureFrequency => DecodeSplit("ce", []);
    case MeasureCount => DecodeSplit("cc", []);
    case ClearCount => DecodeSplit("bc", []);
  }

  lemma EncodeInjective(c: Command, d: Command)
    requires Sendable(c) && Sendable(d) && Encode(c) == Encode(d)
    ensures c == d
  {
    DecodeEncode(c);
    DecodeEncode(d);
  }

  /** The per-channel setters start with `b` exactly when the integer channel is 1 and
      with `d` for every other channel value. */
  lemma PrefixByChannel(n: int, c: Command)
    requires c.Waveform? || c.Frequency? || c.Amplitude? || c.Offset? || c.DutyCycle?
    requires c.ch == ChannelOf(n)
    ensures Sendable(c) <==> c.Amplitude? || c.Offset? || Printable(FormattedInt(c).value)
    ensures Sendable(c) ==> Encode(c).value[0] == (if n == 1 then 'b' else 'd')
  {
  }

  /** Zero-padded payloads: a non-negative value below 10^w fills exactly the `w`
      digit positions after the two-letter head; a larger one is widened, never cut,
      and still reads back whole. */
  lemma PaddedWidths(c: Command)
    requires PaddedField(c).Some?
    ensures Sendable(c) <==> Printable(PaddedField(c).value.0)
    ensures Sendable(c) ==> var (v, w) := PaddedField(c).value; var s := Encode(c).value;
      && |s| >= 2 + w
      && (0 <= v < Pow10(w) ==> |s| == 2 + w && AllDigits(s[2..]))
      && (v >= 0 ==> AllDigits(s[2..]) && DigitsValue(s[2..]) == v)
  {
    var (v, w) := PaddedField(c).value;
    if !Sendable(c) {
      return;
    }
    var s := Encode(c).value;
    var head := s[..2];
    assert s == head + ZeroPad(v, w);
    DecodeSplit(head, ZeroPad(v, w));
    ZeroPadWidth(v, w);
    if v >= 0 {
      PadZerosValue(NatText(v), w);
      NatTextValue(v);
    }
  }

  /** Every setter that formats an integer without a guard sends nothing once the
      integer reaches 10^4300 in magnitude, and sends its text below that. */
  lemma DigitCeiling(c: Command)
    requires FormattedInt(c).Some?
    ensures Sendable(c) <==> -(Pow10(MaxStrDigits) as int) < FormattedInt(c).value < Pow10(MaxStrDigits)
  {
    PrintableBound(FormattedInt(c).value);
  }

  /** The three guarded setters send a command exactly for their valid range; the
      register number is then sent unpadded. */
  lemma GuardedSetters(s: int, m: int, r: int)
    ensures Sendable(TriggerSource(s)) <==> s in {0, 1, 2}
    ensures Sendable(SweepMode(m)) <==> m in {0, 1}
    ensures Sendable(SaveRegister(r)) <==> 0 <= r <= 99
    ensures 0 <= r <= 99 ==> Encode(SaveRegister(r)).value == "bs" + NatText(r)
  {
  }
}
