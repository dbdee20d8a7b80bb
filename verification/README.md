# FY3200S driver core in Dafny

This project models the core of a Python driver for the FY3200S two-channel
function generator, together with the small pieces of logic in its control
window that decide what the driver is asked to send. The model covers three
things:

- **The ASCII command channel.** Each setter turns a channel and an integer into
  one newline-terminated command. The prefix is `b` for channel 1 and `d` for any
  other channel value. A one-letter mnemonic follows, then a decimal payload of
  fixed minimum width. Some setters silently drop out-of-range values. Nothing is
  written while the port is closed, nor when an integer has more than the 4300
  digits Python agrees to format: the f-string raises before the write. The
  commands are modelled as a `Command` datatype with an encoder. A reference
  decoder, written for the model as the encoder's inverse, reads a command text
  back. Every command the driver sends is proved to read back as itself through
  it.
- **The arbitrary-waveform upload engine** (`upload_arbitrary` and
  `_read_exact`). The 2048 samples are packed into 4096 little-endian bytes. The
  engine runs the three-step `DDS_WAVE` handshake, init / erase / begin,
  answered by `X`, `SE` and `W`. It then sends the payload in 8-byte chunks; each
  chunk is complete once eight `X` bytes have come back, and any other byte is
  ignored. The serial port is a *script*: the sequence of read results the
  instrument produces. A read of `k` bytes takes at most `k` bytes of the next
  entry and leaves the rest buffered. An empty entry, or the end of the script,
  is a timeout. There are two descriptions of the engine:
  - a functional reference, `Uploader.Upload`;
  - an imperative method, `Uploader.UploadArbitrary`, with its handshake and
    chunk loops.

  The method is proved equal to the reference. The reference is then proved to
  write a prefix of the upload plan and to stop at the first unanswered step. It
  is also proved to reach the payload only after the exact replies, to tolerate
  noise between acknowledgments, and to report progress 8, 16, … 4096. When no
  read times out, the upload succeeds exactly when the first four bytes are
  `XSEW` and at least one `X` per payload byte follows them, however the bytes
  are split into reads.

  The wait counts `X` bytes up to the chunk's length. So the reply `A`, seven `X`
  and `A` does not complete an 8-byte chunk: it is complete only once an eighth
  `X` arrives. `UploadProperties.NoisyAckShortRun` and
  `UploadProperties.NoisyAckRun` state both cases.
- **The control window's handlers** (main.py). The waveform combo index is sent
  as the waveform id. The model covers the guards on phase, trigger source,
  trigger cycles, sweeps, stop and clear, and the five-command sweep sequence. It
  also covers the count display: it finds the leftmost `[-+]?[0-9]+` token and
  shows `str(int(token))`, and shows the raw reply when there is no token or
  `int()` refuses it.

Python's own text primitives are modelled where the behaviour depends on them:
- `str(int)`, the `0{w}d` format spec and `.2f` over whole hundredths (module
  `Decimal`);
- `str.strip()` and `int(text)`, including underscores and CPython's
  4300-digit conversion limit (module `PyText`). `int()` trims the whitespace
  `strip()` trims except the four information separators U+001C–U+001F: of the
  ASCII characters it skips only `\t\n\v\f\r` and space, and it skips every
  non-ASCII whitespace character.

Files: `wrappers.dfy` (Option), `decimal.dfy`, `pytext.dfy`, `codec.dfy`,
`driver.dfy`, `transport.dfy`, `waveform.dfy`, `upload.dfy`,
`upload_properties.dfy`, `gui.dfy`.

## Model

| member | source | states |
|---|---|---|
| Decimal.NatText | fy3200s.py:58 | `str(n)` of a non-negative number is a non-empty string of digits with no leading zero; `Decimal.NatTextValue` states its value |
| Decimal.NatTextValue | fy3200s.py:131 | the unpadded digits printed for a non-negative number denote that number |
| Decimal.NatTextLength | fy3200s.py:140 | a number prints in at most `w` digits exactly when it is below 10^w |
| Decimal.PadZerosValue | fy3200s.py:148 | zero-filling a digit string keeps it all digits and never changes its value |
| Decimal.ZeroPadRoundTrip | fy3200s.py:79 | reading back `f"{i:0{w}d}"` gives `i` for every integer and width: padding is lossless |
| Decimal.ZeroPad | fy3200s.py:79 | `f"{i:0{w}d}"`: a `-` for a negative value, then zero-filled digits; `Decimal.ZeroPadWidth` states its widths and `Decimal.ZeroPadRoundTrip` its value |
| Decimal.IntTextRoundTrip | fy3200s.py:58 | reading back `str(i)` gives `i` |
| Decimal.IntText | fy3200s.py:58 | `str(i)` is the digits of the magnitude, after a `-` exactly when `i` is negative; `Decimal.IntTextRoundTrip` states that it reads back as `i` |
| Decimal.PrintableBound | fy3200s.py:58 | an integer is within the 4300-digit limit of Python's formatting exactly when its magnitude is below 10^4300 |
| Decimal.ZeroPadWidth | fy3200s.py:97 | `0{w}d` never prints narrower than `w`; a value in 0..10^w-1 takes exactly `w` digits; a larger one is printed whole, wider than `w` |
| Decimal.Fixed2RoundTrip | fy3200s.py:68 | a `.2f` amplitude in whole hundredths reads back as the same number of hundredths |
| Decimal.Fixed2 | fy3200s.py:68 | `.2f` of `h / 100`; `Decimal.Fixed2Shape` states its shape and `Decimal.Fixed2RoundTrip` its value |
| Decimal.Fixed2Shape | fy3200s.py:74 | `.2f` prints a point followed by exactly two digits |
| PyText.Strip | fy3200s.py:45 | `strip()` is no longer than its input, and its result neither starts nor ends with whitespace |
| PyText.StripContents | fy3200s.py:45 | `strip()` is empty exactly when the input is all whitespace; otherwise it is the input from its first non-whitespace character on, and only whitespace follows it |
| PyText.StripUnpadded | fy3200s.py:45 | a text with no blank at either end, under either whitespace set, is left unchanged by trimming |
| PyText.ParseInt | main.py:368 | `int(text)`: surrounding whitespace other than U+001C–U+001F is trimmed; `PyText.NumericBlanks`, `PyText.ParseStrippedDigits`, `PyText.ParseIntOfIntText`, `PyText.ParseIntWithinLimit`, `PyText.ParseIntNeedsDigit`, `PyText.SeparatorRefused`, `PyText.SeparatorRefusedBeforeWideSpace` and `PyText.WideSpaceSkipped` state what it accepts |
| PyText.ParseStrippedDigits | main.py:483 | `int()` of an optional sign and plain digits is the signed value of the digits, refused only past the 4300-digit limit |
| PyText.ParseIntOfIntText | main.py:368 | `int(str(i)) == i` whenever the digits are within the conversion limit |
| PyText.ParseIntWithinLimit | main.py:483 | every value `int()` accepts prints back within the digit limit |
| PyText.ParseIntNeedsDigit | main.py:367-371 | a text without any digit makes `int()` fail |
| PyText.NumericBlanks | main.py:368 | a character is skipped around the number by `int()` exactly when `str.isspace()` accepts it and it is not one of U+001C–U+001F |
| PyText.SeparatorRefused | main.py:366-371 | the text U+001C `42` is refused, because U+001C is not whitespace to `int()`, so the cycles field sends nothing |
| PyText.SeparatorRefusedBeforeWideSpace | main.py:366-371 | the same text followed by U+3000 is refused as well: a non-ASCII character elsewhere does not make U+001C skippable |
| PyText.WideSpaceSkipped | main.py:366-371 | non-ASCII whitespace is skipped: U+3000 followed by `42` reads as 42 |
| Codec.ChannelOf | fy3200s.py:57 | the integer channel selects the main channel exactly when it equals 1 |
| Codec.Encode | fy3200s.py:55-148 | the text each setter formats, or nothing when its guard drops the value or an integer field is past the digit limit; `Codec.DecodeEncode`, `Codec.EncodeInjective`, `Codec.PrefixByChannel`, `Codec.PaddedWidths`, `Codec.DigitCeiling` and `Codec.GuardedSetters` state its meaning |
| Codec.DecodeEncode | fy3200s.py:55-148 | every command the driver sends reads back as that same command through the reference decoder |
| Codec.EncodeInjective | fy3200s.py:55-148 | no two commands the driver sends share a text |
| Codec.PrefixByChannel | fy3200s.py:55-79 | a per-channel command is sent for every amplitude and offset, and for an integer field within the digit limit; when sent it starts with `b` if the channel is 1 and with `d` for every other channel value |
| Codec.PaddedWidths | fy3200s.py:76-148 | a padded command is sent exactly when its value is within the digit limit; duty and phase are then padded to 3 digits, trigger cycles to 7, sweep time to 2, sweep begin and end to 9; a value in range fills exactly that width, a larger one is widened and still denotes the value |
| Codec.DigitCeiling | fy3200s.py:55-148 | a command with an integer f-string field is sent exactly when that integer's magnitude is below 10^4300 |
| Codec.GuardedSetters | fy3200s.py:85-131 | trigger source is sent exactly for 0, 1 and 2, sweep mode exactly for 0 and 1, the register exactly for 0..99, and a valid register is sent unpadded |
| Driver.SendCommand | fy3200s.py:30-40 | an open port gets exactly one write, the command followed by `\n`; a closed port gets none |
| Driver.Issue | fy3200s.py:30-34 | nothing is written when the port is closed, the guard drops the command or a value is past the digit limit; otherwise one line is written that reads back as the command |
| Driver.SetWaveform | fy3200s.py:55-58 | one line carrying the waveform id on the channel's prefix, exactly when the port is open and the value is within the digit limit; otherwise nothing |
| Driver.SetFrequency | fy3200s.py:60-63 | one line carrying the centihertz value on the channel's prefix, exactly when the port is open and the value is within the digit limit; otherwise nothing |
| Driver.SetAmplitude | fy3200s.py:65-68 | one line carrying the amplitude in hundredths with two decimals, or nothing on a closed port |
| Driver.SetOffset | fy3200s.py:70-74 | one line carrying the offset in hundredths with two decimals, or nothing on a closed port |
| Driver.SetDutyCycle | fy3200s.py:76-79 | one line carrying the duty value, six characters for a value below 1000, exactly when the port is open and the value is within the digit limit; otherwise nothing |
| Driver.SetPhase | fy3200s.py:81-83 | one `dp` line carrying the degrees, six characters for 0..999, exactly when the port is open and the value is within the digit limit; otherwise nothing |
| Driver.SetTriggerSource | fy3200s.py:85-88 | a `tt` line exactly when the port is open and the source is 0, 1 or 2 |
| Driver.SetTriggerCycles | fy3200s.py:90-97 | one `tn` line carrying the cycle count, seven digits for 0..9999999, exactly when the port is open and the value is within the digit limit; otherwise nothing |
| Driver.SetSweepMode | fy3200s.py:100-103 | a `bm` line exactly when the port is open and the mode is 0 or 1 |
| Driver.SetSweepTime | fy3200s.py:105-112 | one `bt` line carrying the seconds, two digits for 0..99, exactly when the port is open and the value is within the digit limit; otherwise nothing |
| Driver.StartSweep | fy3200s.py:114-116 | one line carrying the run command, or nothing on a closed port |
| Driver.StopSweep | fy3200s.py:118-120 | one line carrying the stop command, or nothing on a closed port |
| Driver.SaveRegister | fy3200s.py:122-131 | a `bs` line exactly when the port is open and the register is in 0..99, with the register unpadded |
| Driver.SetSweepBegin | fy3200s.py:133-140 | one `bb` line carrying the centihertz, nine digits below 10^9, exactly when the port is open and the value is within the digit limit; otherwise nothing |
| Driver.SetSweepEnd | fy3200s.py:142-148 | one `be` line carrying the centihertz, nine digits below 10^9, exactly when the port is open and the value is within the digit limit; otherwise nothing |
| Driver.ReadResponse | fy3200s.py:42-48 | an open port answers with exactly `strip()` of the line read; a closed port answers nothing |
| Driver.Query | fy3200s.py:50-53 | a query writes its one command line and returns the stripped answer when the port is open; it writes and returns nothing otherwise |
| Driver.GetModel | fy3200s.py:50-53 | writes `a` and returns the stripped answer, or nothing on a closed port |
| Driver.MeasureFrequency | fy3200s.py:256-262 | writes `ce` and returns the stripped answer, or nothing on a closed port |
| Driver.MeasureCount | fy3200s.py:264-270 | writes `cc` and returns the stripped answer, or nothing on a closed port |
| Driver.ClearCount | fy3200s.py:272-277 | writes `bc`, or nothing on a closed port |
| Transport.Read | fy3200s.py:161 | a read returns at most the bytes asked for, and the bytes returned plus those left add up to what the stream held |
| Transport.ReadExact | fy3200s.py:156-165 | `_read_exact(n)` returns at most `n` bytes and loses none of the stream's bytes |
| Transport.CountAcks | fy3200s.py:249 | the number of `X` bytes counted never exceeds the bytes read |
| Transport.ReadConserves | fy3200s.py:161 | a read returns the next bytes of the stream, losing and reordering none |
| Transport.ReadExactConserves | fy3200s.py:156-165 | `_read_exact` returns the next bytes of the stream, losing and reordering none |
| Transport.CountAcksAppend | fy3200s.py:249 | acknowledgments counted over two reads add up |
| Transport.CountAcksAllAcks | fy3200s.py:249 | a run of `X` bytes counts in full |
| Transport.ReadExactShortEntry | fy3200s.py:160-164 | when the next entry is shorter than the request, `_read_exact` returns that entry followed by what reading the rest of the stream for the remaining bytes returns |
| Transport.ReadExactFromEntry | fy3200s.py:160-164 | when the next entry holds enough bytes, `_read_exact(n)` returns its first `n` and leaves the remainder buffered |
| Transport.ReadExactTimeout | fy3200s.py:162-163 | a read that times out ends `_read_exact` with nothing |
| Transport.ReadExactFull | fy3200s.py:156-165 | when no read times out and the stream holds at least `n` bytes, `_read_exact(n)` returns exactly `n` bytes |
| Waveform.Clamp | fy3200s.py:190 | every code is within 0..4095, in-range values are kept, out-of-range ones go to the nearer bound |
| Waveform.ClampAll | fy3200s.py:180-191 | every sample is clamped in place |
| Waveform.Pack | fy3200s.py:180-196 | the packed buffer always holds exactly 2048 codes |
| Waveform.PackContents | fy3200s.py:180-196 | code `i` is sample `i` clamped when supplied and 2048 past the end of a short input; samples past the 2048th are ignored |
| Waveform.Serialize | fy3200s.py:198-201 | two bytes per code |
| Waveform.SerializeBytes | fy3200s.py:198-201 | byte `2i` is `code_i & 0xFF` and byte `2i+1` is `(code_i >> 8) & 0xFF` |
| Waveform.LowHighRecover | fy3200s.py:200-201 | low byte plus 256 times high byte recovers every 16-bit code |
| Waveform.SerializeRoundTrip | fy3200s.py:198-203 | reading the payload back as little-endian words gives the codes |
| Waveform.Payload | fy3200s.py:179-203 | the payload is always 4096 bytes |
| Waveform.PayloadShape | fy3200s.py:179-203 | the payload decodes back to the 2048 packed codes, each within 0..4095 |
| Waveform.Chunks | fy3200s.py:237-239 | every chunk holds between 1 and 8 bytes |
| Waveform.ChunksFlatten | fy3200s.py:236-240 | the chunks written concatenate back to the payload |
| Waveform.ChunksAligned | fy3200s.py:236-240 | a payload of whole chunks is cut into equal 8-byte chunks, chunk `k` being bytes `8k..8k+8` |
| Uploader.AwaitAcks | fy3200s.py:242-249 | the acknowledgment wait only consumes the stream |
| Uploader.AwaitAcksCounts | fy3200s.py:242-249 | the count never exceeds the chunk length, and the chunk is acknowledged exactly when it reaches it |
| Uploader.AwaitAcksConserves | fy3200s.py:242-249 | the bytes the wait reads are the next bytes of the stream |
| Uploader.ChunkLength | fy3200s.py:239 | the next chunk holds between 1 and 8 bytes, never more than remain |
| Uploader.Transfer | fy3200s.py:236-251 | progress is reported once per acknowledged chunk; a failed transfer has written exactly one chunk more than it reported |
| Uploader.TransferFollowsChunks | fy3200s.py:236-251 | the chunks written are a prefix of the payload's chunks in order, all of them when the transfer succeeds |
| Uploader.Greet | fy3200s.py:217-233 | the handshake answers between 0 and 3 steps |
| Uploader.UploadArbitrary | fy3200s.py:167-253 | the imperative upload returns exactly the result, the writes and the progress reports of the reference `Upload` |
| Uploader.PerformHandshake | fy3200s.py:217-233 | the handshake loop answers the same steps as the reference and has written the frames up to and including the first unanswered one |
| Uploader.AwaitReply | fy3200s.py:219-233 | a step whose reply differs ends the handshake there; a matching reply moves on to the next step |
| Uploader.SendPayload | fy3200s.py:235-253 | the chunk loop returns exactly the reference transfer: result, chunks written and progress reported |
| Uploader.AwaitChunk | fy3200s.py:242-249 | the acknowledgment loop ends as the reference wait does, with the same stream left |
| Uploader.SendChunk | fy3200s.py:239-251 | one pass writes the next chunk of between 1 and 8 bytes; an unacknowledged chunk ends the transfer as the reference does, and an acknowledged one leaves the reference transfer from the rest of the stream |
| Uploader.Upload | fy3200s.py:167-253 | the reference upload; `UploadProperties.UploadRejects`, `UploadProperties.UploadFollowsPlan`, `UploadProperties.UploadProgress`, `UploadProperties.HandshakeGate` and `UploadProperties.UploadExactly` state its meaning, and `Uploader.UploadArbitrary` equals it |
| UploadProperties.TransferProgressCount | fy3200s.py:235-253 | on a payload of `count` whole chunks progress is reported at most `count` times, exactly `count` times on success |
| UploadProperties.TransferProgressValues | fy3200s.py:250-251 | the progress values are the bytes sent so far: `sent + 8`, `sent + 16`, … |
| UploadProperties.TransferAcks | fy3200s.py:242-250 | a successful transfer has read at least one `X` for every payload byte |
| UploadProperties.AcksAmidNoise | fy3200s.py:242-249 | non-`X` bytes are ignored: the wait succeeds whenever the next entry holds enough `X` bytes, even spread over several reads |
| UploadProperties.AckShortfallFails | fy3200s.py:242-249 | a stream with fewer `X` bytes than the chunk length never acknowledges it, however they are split into reads |
| UploadProperties.NoisyAckRun | fy3200s.py:242-249 | `A` followed by eight `X` and another `A` acknowledges an 8-byte chunk |
| UploadProperties.NoisyAckShortRun | fy3200s.py:242-249 | `A`, seven `X` and `A`, then silence, does not acknowledge an 8-byte chunk |
| UploadProperties.AcksArrive | fy3200s.py:242-249 | when no read times out, the wait acknowledges a chunk whenever the stream holds the `X` bytes still missing, however they are spread over reads and mixed with other bytes |
| UploadProperties.AcksExactly | fy3200s.py:242-249 | when no read times out, a chunk is acknowledged exactly when the stream holds at least as many `X` bytes as the chunk length |
| UploadProperties.AcksLeft | fy3200s.py:242-251 | a successful wait leaves every `X` byte past the chunk's own for the chunks after it |
| UploadProperties.TransferArrives | fy3200s.py:235-253 | when no read times out, the transfer succeeds whenever the stream holds one `X` per payload byte still to send |
| UploadProperties.TransferExactly | fy3200s.py:235-253 | when no read times out, the transfer succeeds exactly when the stream holds at least one `X` per payload byte |
| UploadProperties.SilenceTimesOut | fy3200s.py:244-247 | a chunk whose acknowledgment read times out is not acknowledged |
| UploadProperties.AckRunsComplete | fy3200s.py:235-253 | one read of eight `X` bytes per chunk completes a whole-chunk transfer |
| UploadProperties.GreetConsumes | fy3200s.py:217-233 | a completed handshake has read exactly the expected replies, in order, and nothing else |
| UploadProperties.GreetFromBurst | fy3200s.py:217-233 | the replies arriving together in one read still complete the handshake, leaving what followed buffered |
| UploadProperties.GreetArrives | fy3200s.py:217-233 | when no read times out, a stream that begins with the replies still expected completes the handshake, however they are split into reads |
| UploadProperties.GreetExactly | fy3200s.py:217-233 | when no read times out, the handshake completes exactly when the first four bytes are `XSEW` |
| UploadProperties.UploadRejects | fy3200s.py:173-178 | a closed port or a bank outside 1..4 fails with nothing written and nothing reported, the closed port being reported first |
| UploadProperties.UploadFollowsPlan | fy3200s.py:217-253 | every upload writes a prefix of handshake-then-chunks, the whole of it exactly on success, and stops right after the unanswered step: 1, 2 or 3 frames, or the unacknowledged chunk last |
| UploadProperties.PlanLayout | fy3200s.py:217-240 | the frames are `DDS_WAVE`+0xA5, `DDS_WAVE`+(0xF0+bank), `DDS_WAVE`+bank, then 512 chunks, chunk `k` being bytes `8k..8k+8` |
| UploadProperties.UploadProgress | fy3200s.py:235-253 | progress values are 8, 16, 24, … in order, and a successful upload reports all 512 of them, ending at 4096 |
| UploadProperties.HandshakeGate | fy3200s.py:217-253 | the payload is reached only after `X`, `SE`, `W` were the first four bytes read, and success needs one `X` per payload byte after them |
| UploadProperties.GreetGate | fy3200s.py:217-233 | a completed handshake has consumed exactly `XSEW` |
| UploadProperties.HandshakeEntered | fy3200s.py:217-240 | conversely, a first read carrying `XSEW` and more gets past the handshake and the first chunk is written |
| UploadProperties.SilenceAfterBegin | fy3200s.py:235-247 | an instrument that answers the handshake and then falls silent gets one chunk and a transfer timeout, with no progress reported |
| UploadProperties.ExactGreeting | fy3200s.py:217-233 | the three replies, one read each, complete the handshake and leave the rest of the stream |
| UploadProperties.ExactRepliesComplete | fy3200s.py:167-253 | an instrument that answers every step exactly, one read each, receives the whole waveform and the upload succeeds |
| UploadProperties.UploadExactly | fy3200s.py:167-253 | on an open port with a valid bank and no read timing out, the upload succeeds exactly when the stream begins with `XSEW` and at least one `X` per payload byte follows |
| Gui.ChannelNumber | main.py:130 | the CH1 panel drives the main channel and the CH2 panel the deputy channel |
| Gui.WaveformHandler | main.py:331-335 | the combo index is sent as the waveform id on the panel's channel, exactly when connected and the index is within the digit limit |
| Gui.ArbitraryIds | main.py:48-96 | CH1 lists 21 waveforms and CH2 20; "Arbitrary k" is at index 16+k on CH1 and 15+k on CH2, and nowhere else |
| Gui.PhaseHandler | main.py:347-353 | the phase field's integer is sent exactly when connected and `int()` accepts the text |
| Gui.SourceOf | main.py:248-250 | every trigger button passes a source in 0..2 |
| Gui.TriggerSourceHandler | main.py:356-360 | a trigger source line is sent exactly when connected |
| Gui.TriggerButtonsDistinct | main.py:248-250 | Manual, External and CH2 send `tt0`, `tt1` and `tt2` |
| Gui.TriggerCyclesHandler | main.py:362-372 | the cycle count is sent exactly when connected and `int()` accepts the text |
| Gui.TriggerCyclesText | main.py:366-372 | a canonical decimal in the field reaches the instrument as that number; a text with no digit sends nothing |
| Gui.SweepSetupLines | main.py:391-395 | with every value within the digit limit, a sweep start sends five lines, decoding in order to begin, end, time, mode and run |
| Gui.SweepSetupRaises | main.py:391-395 | a value past the digit limit makes its setter raise and ends the sequence there: nothing for the begin value, the begin line alone for the end value, begin and end for the time |
| Gui.SweepLines | main.py:375-415 | both sweep buttons send the five lines with their own mode; nothing while disconnected, when a field does not parse or when the begin value is past the digit limit; only the begin line when the end value is |
| Gui.SweepHandler | main.py:375-415 | what either sweep button sends, given the converted begin and end; `Gui.SweepLines` states its meaning |
| Gui.LinSweepHandler | main.py:375-395 | the linear sweep sends something exactly when connected, every field parses and the begin value is within the digit limit: five lines, or one when the end value is past it |
| Gui.LogSweepHandler | main.py:397-415 | the log sweep sends something exactly when connected, every field parses and the begin value is within the digit limit: five lines, or one when the end value is past it |
| Gui.StopSweepHandler | main.py:417-421 | the stop command is sent exactly when connected |
| Gui.FindToken | main.py:477 | the search finds a place where a signed-integer token starts, and none starts before it |
| Gui.DigitRunEnd | main.py:477 | the token's digits run as far as the digits go |
| Gui.PollCount | main.py:469-487 | while connected a poll writes `cc` and shows the count display of the stripped reply; otherwise it does nothing |
| Gui.ClearCountHandler | main.py:489-493 | `bc` is sent exactly when connected |
| Gui.ParseIntOfToken | main.py:483 | `int()` of a matched token is its signed digit value, refused only past the digit limit |
| Gui.Token | main.py:477 | the leftmost `[-+]?[0-9]+` match; `Gui.LeftmostToken`, `Gui.FindToken` and `Gui.DigitRunEnd` state what it finds |
| Gui.LeftmostToken | main.py:477 | the match is the text from the leftmost token start to the end of its digit run |
| Gui.CountDisplay | main.py:477-487 | the count field's text for a reply; `Gui.CountDisplayRaw`, `Gui.CountDisplayValue` and `Gui.CountDisplayIdempotent` state its meaning |
| Gui.CountDisplayRaw | main.py:477-481 | a reply with no integer token is displayed unchanged |
| Gui.TokenParse | main.py:477-484 | `int()` of the leftmost match is the sign applied to its digits' value, refused only past the digit limit |
| Gui.CountDisplayValue | main.py:477-487 | otherwise the display is `str()` of that value, so leading zeros and a `+` disappear; an over-long token shows the reply unchanged |
| Gui.CountExampleLabelled | main.py:477-487 | the reply `count=77` is displayed as `77` |
| Gui.CountExampleError | main.py:477-481 | the reply `ERR` is displayed as `ERR` |
| Gui.CountDisplayIdempotent | main.py:477-487 | feeding the displayed text back in displays it unchanged |
| Gui.DisplayOfCanonical | main.py:483-487 | `str(n)` displays as itself |
| Gui.CanonicalToken | main.py:477 | a canonical decimal is one whole token whose value is the number printed |

## Left out

- The serial port itself is reduced to whether it is open and, for the upload,
  to a script of read results. This leaves out `connect`/`disconnect`, the baud
  rate and timeout (fy3200s.py:12-28), and port enumeration. It also leaves out
  the diagnostics printed on a closed port and the `RuntimeError` that
  `_write_bytes`/`_read_exact` raise when the port closes mid-upload.
- The 100 ms pause after every command (fy3200s.py:37) and the input flush
  before an upload (fy3200s.py:211-215) are timing and buffer effects with no
  observable result in the model.
- ASCII encoding and decoding errors are not modelled: every command is ASCII
  by construction, and the reply is taken as text.
- The float paths are not modelled:
  - Amplitude and offset (fy3200s.py:65-74) are given in whole hundredths of a
    volt. `.2f` of a float that is not an exact hundredth, and its rounding,
    are not modelled.
  - The window's Hz→centihertz conversion `int(float(text) * 100)` for
    frequency and sweep begin/end (main.py:307-308, 388-389, 409-410) is not
    modelled. `Gui.SweepHandler` receives the converted begin and end values,
    or `None` when a field is not a number.
  - The duty percentage times ten (main.py:341-342) is not modelled either.
  - `update_frequency`, `update_amplitude`, `update_offset` and
    `update_duty_cycle` (main.py:303-345) are only these conversions in front
    of the driver setters, which are modelled.
- The float sample path of `upload_arbitrary`: quantisation
  `round((v + 1) * 2047.5)` with banker's rounding, and the `float()` fallback
  to 0.0 (fy3200s.py:184-189). Only the integer path and the final clamp are
  modelled. `Waveform.Pack` takes the integer samples; a float sample would
  need its quantised code.
- Codec.Encode: amplitude and offset are whole hundredths of any size and have
  no digit limit. In the source they are floats, and `.2f` formats every finite
  float. Floats, their bounds and infinity are not modelled.
- The sweep buttons' `int(begin_hz * 100)` (main.py:388-389, 409-410) raises
  `OverflowError` or `ValueError` for an infinite or NaN field, outside the
  `try`. `Gui.SweepHandler` receives the converted values and leaves that case
  out with the rest of the float path.
- The setters' `int(...)` conversion with its `TypeError`/`ValueError` early
  return (fy3200s.py:92-95, 107-110, 124-127, 135-138, 144-147): the model's
  setters take integers, for which `int()` is the identity.
- `int()` maps non-ASCII Unicode digits to ASCII ones. `PyText.ParseInt` accepts only
  `0`-`9`. The count token regex `[0-9]` already excludes the others, but a
  phase, cycles or sweep-time field holding, say, Arabic-Indic digits is
  refused by the model where Python would accept it.
- The progress callback and its swallowed exceptions (fy3200s.py:204-209): the
  model records the sequence of `sent` values it would receive. The total is
  always 4096 (`Waveform.Payload`).
- The window's widgets, layouts, timers and start/stop toggles
  (main.py:424-444). The model covers one poll of the count; the timer that
  repeats it is left out.
- The frequency display `_poll_measure_frequency` (main.py:446-467): it parses
  a float token, divides it by 100 and formats it with `.2f`. This is float
  arithmetic throughout and is left out.
- Uploader.AwaitAcks: its own contract states only that the wait consumes the
  stream. What it counts and consumes is stated by
  `Uploader.AwaitAcksCounts` and `Uploader.AwaitAcksConserves`.
- Uploader.AwaitAcks: a script is finite, so every wait ends. The source's wait
  at fy3200s.py:243-249 can go on for ever while the instrument keeps sending
  bytes other than `X` without a timeout gap. That case cannot occur in the
  model, and the rows saying that every upload ends hold only for a finite
  stream.
- Uploader.Greet: its own contract bounds the number of steps answered. Which
  bytes it consumes is stated by `UploadProperties.GreetConsumes` and
  `UploadProperties.GreetGate`.
