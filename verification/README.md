# Spaghetti LAB: verified model of the host tools and the fixed-point blocks

A Dafny 4.11 model of the parts of the repository whose correctness is not visible from one function
body: the wire codecs and stream parsers of the USB tools, the network console's line editor, the
integer filters and guarded arithmetic of the firmware blocks, and the protocol client with its
catalog, Config and update procedures. `dafny verify dfyconfig.toml` checks everything.

| file | what it models |
|---|---|
| `Cobs.dfy`, `CobsLink.dfy` | COBS frames (`core_util.py`), the accumulate-until-zero receiver, what a retry puts on the wire |
| `Fields.dfy`, `FieldCodec.dfy`, `FieldCuts.dfy` | varints, tagged fields, the host message, messages that end too early |
| `CoreLink.dfy` | one exchange with the Core: reply parser, receive loop, retries |
| `Framing.dfy` | the two resynchronising serial frame parsers (`usb_bridge.py`, `spaghetti.py`) |
| `OversizedResponses.dfy` | responses above the CLI parser's limit |
| `LineEditor.dfy`, `LineEditorKeys.dfy`, `LineEditorProperties.dfy`, `LineEditorEcho.dfy` | `NetworkLineEditor` (`device.py`): the editor, what each key does, its promises, the terminal |
| `CheckedMath.dfy`, `MapRange.dfy` | overflow guards, C division, the `map_range` block |
| `FixedPoint.dfy`, `LowPass.dfy`, `Kalman.dfy` | the Q16 filters |
| `SlidingWindow.dfy`, `MovingAverage.dfy`, `Median.dfy` | the two ring-buffer filters |
| `Logic.dfy` | hysteresis and debounce |
| `Client.dfy`, `Catalog.dfy` | correlation ids, calls with retries, paged catalog reads (`spaghetti_protocol.py`) |
| `WireValues.dfy`, `Config.dfy`, `ConfigContents.dfy`, `ConfigServer.dfy` | property values, the Config document, what it holds, compare-and-swap |
| `Update.dfy`, `UpdateOutcomes.dfy` | the resumable update, how each call leaves the session |

How to read it:

- Code that changes state is a method or a class with the source's fields; each is proved equal to a
  function of its inputs or old state, and the promises are lemmas about that function over every
  input, run or interleaving.
- Bytes are integers 0..255. C integers are mathematical integers with an explicit int64 range; a C
  operation that would leave the range has no meaning, so block methods require that their
  intermediate results fit, and separate lemmas say exactly which inputs guarantee it.
- C division truncates toward zero (`CheckedMath.Quot`).
- SHA-256 is a free constructor (equal digests, equal data) and a canonical CBOR document is its own
  encoding.
- The environment (what a serial port delivers, how a transport reacts, what disturbs an update, how
  a server changes between requests) is an arbitrary sequence given to the operation.
- `hide` in a proof only keeps definitions the step does not need away from the solver.

Findings where a natural claim fails, with its exact condition or a concrete input:

- Hysteresis follows the latest decisive sample exactly when `low < high`; validation also admits
  equal thresholds, and then a repeated sample toggles the output (`Logic.HysteresisIsExact`).
- The unchecked products of the filters are safe exactly up to a magnitude:
  `2 * m * alpha <= INT64_MAX` for the low pass, `2 * m * 65535 <= INT64_MAX` for the Kalman filter
  over all configurations, `window * m <= INT64_MAX` for the moving average.
- A host message is read back for all nonces and nodes exactly when its field number is in 0..2^29-1
  and is none of 1, 2, 3 (`FieldCodec.HostMessageRoundTripIsExact`).
- A message that is cut short is rejected exactly when the cut falls inside a varint: a key, a length or a
  varint value (`FieldCuts.MessageCutExactly`). Cut inside a byte string or a fixed-width value it is
  accepted with what is left (`FieldCuts.CutIsRejectedExactly`).
- A nonce or node outside 0..2^32-1 is accepted by the writer and read back as another number
  (`FieldCodec.HostMessageRecovered`).
- A reply whose lowest body field (10 to 14) starts with a varint raises a type error that the receive
  loop does not catch and aborts the exchange: exactly those (`CoreLink.EscapesExactly`), for example the
  wire bytes `03 50 01 00` (`CoreLink.FourBytesAbortAnyExchange`).
- Stray bytes before a serial frame cost nothing exactly when none of them can start a frame within the
  parser's limit (`Framing.NoiseIsHarmlessExactly`); shell text never can (`Framing.ShellBytesAreHarmless`),
  a single 0 byte can (`Framing.StrayZeroSwallowsFrame`).
- The bridge's serial format allows envelopes of 2112 bytes, the CLI's reader takes exactly those up to 576
  (`OversizedResponses.CliReturnsExactly`). A larger response is dropped without a trace exactly when it is
  harmless in the sense above (`OversizedResponses.OversizedIsDroppedExactly`). Its payload is read as serial
  frames unless the payload length ends in a byte 0 or 1 or the correlation id is one of a few
  (`OversizedResponses.HeadIsHarmlessExactly`); a payload that begins with such a frame is then delivered as
  if the Core had sent it (`OversizedResponses.PayloadIsDelivered`).
- A catalog that changes between two pages is never returned torn exactly when catalogs sharing a
  fingerprint agree on their first driver (`Catalog.NeverTornExactly`, for the fake Core's paging).
- An update can flip the slot and still report an interruption: exactly when every chunk goes through and
  Ctrl-C is the first thing to happen, right behind the finalisation (`Update.UnreportedFlipExactly`, such a
  run in `Update.InterruptedAfterFlip`).
- A cancelled update leaves session id 0, and the next call starts over whatever record it brings
  (`UpdateOutcomes.CancelledUpdateRestarts`). Ids then start again at 1, so a record from before the cancel
  matches a later upload of the same image once more (`UpdateOutcomes.OldRecordMatchesAgain`).
- Text that looks like a number or hex, and byte strings that are empty or all digits in hex, change
  when their recorded type is dropped (`WireValues.InferredRoundTrip`).

## Model

| member | source | states |
|---|---|---|
| Cobs.EncodeFrame | firmware/bringup/scripts/core_util.py:339-361 | the encoder loop produces the reference encoding by groups of at most 254 non-zero bytes, plus the delimiter |
| Cobs.DecodeFrame | firmware/bringup/scripts/core_util.py:364-383 | the decoder loop equals the reference decoder, including which malformed frame raises which error |
| Cobs.RoundTrip | firmware/bringup/scripts/core_util.py:339-383 | decoding the encoding of any byte string gives it back |
| Cobs.EncodedHasNoZero | firmware/bringup/scripts/core_util.py:339-361 | the encoding holds no zero byte before its delimiter |
| Cobs.EncodedLength | firmware/bringup/scripts/core_util.py:339-361 | the exact frame length: two bytes and one per full group more than the payload, hence at most n + n/254 + 2 |
| Cobs.DecoderIsExact | firmware/bringup/scripts/core_util.py:364-383 | on zero-free frames the decoder yields d if and only if the frame is the encoding of d, or that encoding without a redundant last code |
| Cobs.FrameIsReadByCodes | firmware/bringup/scripts/core_util.py:364-383 | what any frame decodes to, zeros inside it included: its bodies joined, or the error for the first code that does not fit, truncated when it is short by one byte and corrupted otherwise |
| CobsLink.ReceiveSplit | firmware/bringup/scripts/core_util.py:649-664 | the accumulate-until-zero receiver does not depend on how the stream is cut |
| CobsLink.SelfSynchronising | firmware/bringup/scripts/core_util.py:649-664 | at the level of COBS decoding: after any open fragment, any garbage and one delimiter, every following frame is decoded to exactly its payload and nothing is left over; what the reply parser then makes of the frames is the subject of CoreLink |
| CobsLink.RetryAfterLoss | firmware/bringup/scripts/core_util.py:635-643 | the retry's leading delimiter discards whatever fragment a receiver holds and the frame behind it arrives intact |
| CobsLink.RetriesAreDelivered | firmware/bringup/scripts/core_util.py:635-643 | over any number of attempts a receiver sees, per retry, one empty frame and the payload |
| Fields.EncodeVarint | firmware/bringup/scripts/core_util.py:386-393 | the loop writes the base-128 groups of the low 32 bits, for negative numbers too |
| Fields.DecodeVarint | firmware/bringup/scripts/core_util.py:431-443 | the loop equals the group-wise reader with its two errors |
| Fields.VarintRoundTrip | firmware/bringup/scripts/core_util.py:386-443 | a written varint is read back modulo 2^32 with its exact length, whatever follows |
| Fields.VarintReadIsExact | firmware/bringup/scripts/core_util.py:431-443 | a read succeeds if and only if one of the first five bytes is below 128, and stops at the first such byte; otherwise it is truncated or too long according to the bytes there are |
| Fields.VarintIsGroupSum | firmware/bringup/scripts/core_util.py:431-443 | the number read is the sum of its seven-bit groups by position, for non-canonical forms too |
| Fields.SkipField | firmware/bringup/scripts/core_util.py:446-457 | where the value of a skipped field ends, for every wire type |
| Fields.DecodeFields | firmware/bringup/scripts/core_util.py:460-475 | the loop groups exactly the kept entries of the message, or raises the first error |
| FieldCodec.GroupHoldsSelection | firmware/bringup/scripts/core_util.py:468-471 | the dictionary holds, per field, exactly its values in order |
| FieldCodec.ReaderInvertsWriters | firmware/bringup/scripts/core_util.py:386-475 | any concatenation of varint and length-delimited fields is read back, interleaved fixed32 and fixed64 fields are ignored, numbers survive modulo 2^29 and 2^32 |
| FieldCodec.UnsupportedWireIsRejected | firmware/bringup/scripts/core_util.py:446-457 | a field with wire type 3, 4, 6 or 7 anywhere rejects the message |
| FieldCuts.CutIsRejectedExactly | firmware/bringup/scripts/core_util.py:431-475 | a last field cut anywhere is rejected, as a truncated varint, if and only if the cut falls inside its key, its length or its varint value; otherwise the fields before it and what is left of its bytes are kept |
| FieldCuts.MessageCutExactly | firmware/bringup/scripts/core_util.py:431-475 | any message cut at any byte is rejected if and only if the cut falls inside such a header of one of its fields |
| FieldCodec.HostMessageParses | firmware/bringup/scripts/core_util.py:424-428 | the host message carries exactly its non-zero fields in order |
| FieldCodec.HostMessageRecovered | firmware/bringup/scripts/core_util.py:424-480 | with a representable field number outside 1, 2, 3: nonce, node and payload are recovered if and only if nonce and node lie in 0..2^32-1 |
| FieldCodec.HostMessageRoundTripIsExact | firmware/bringup/scripts/core_util.py:424-480 | with zero defaults every 32-bit nonce and node and every inner payload is recovered, if and only if the request field is representable and not 1, 2 or 3 |
| CoreLink.ReadReply | firmware/bringup/scripts/core_util.py:649-667 | the byte loop's verdict is that of the first frame that is not ignored: a reply with the expected nonce, or a type error that escapes |
| CoreLink.Transact | firmware/bringup/scripts/core_util.py:629-682 | the expected nonce comes from the payload; the bytes written over all attempts, a partial write included; every attempt before the last was complete and ignored; answer, escape, partial write, or timeout only after all retries; an answer holds what the entries of the first answering frame say |
| CoreLink.JudgedExactly | firmware/bringup/scripts/core_util.py:478-667 | a frame answers if and only if it decodes to a well-formed message whose first field 1 is the nonce (zero if absent) and whose leading body field, if any, holds a well-formed submessage; it aborts if and only if that field starts with a varint |
| CoreLink.AnswerHolds | firmware/bringup/scripts/core_util.py:478-533 | whenever a frame answers: the reply's kind is the field of the leading body entry and its dictionary holds exactly the fields of the submessage that entry carries, values in order; without a body entry there is neither |
| CoreLink.ExpectedNonceExactly | firmware/bringup/scripts/core_util.py:633 | the nonce a request waits for is its own first field 1, zero without one |
| CoreLink.ReplyIsFoundExactly | firmware/bringup/scripts/core_util.py:649-667 | behind the first delimiter, an answering reply decides the attempt if and only if no earlier frame answers or aborts, in terms of the entries the frames carry |
| CoreLink.EscapesExactly | firmware/bringup/scripts/core_util.py:478-533 | a message makes the parser raise a type error if and only if the first entry of its lowest body field is a varint |
| CoreLink.FourBytesAbortAnyExchange | firmware/bringup/scripts/core_util.py:657-663 | the wire bytes 03 50 01 00 abort the exchange for every nonce and whatever follows |
| CoreLink.DelimiterReplyIsIgnored | firmware/bringup/scripts/core_util.py:635-666 | a reply with nonce 0 is ignored by a host message if and only if the message's nonce is not a multiple of 2^32 |
| Framing.WrittenFrameIsPopped | firmware/backbone/tools/usb_bridge.py:67-91 | the writer refuses exactly oversized envelopes, and what it writes is what the next pop returns |
| OversizedResponses.CliReturnsExactly | firmware/backbone/tools/spaghetti.py:172-187 | of the frames the bridge's parser returns, the CLI's returns exactly those with at most 576 bytes |
| OversizedResponses.OversizedResponseIsRescanned | firmware/backbone/tools/spaghetti.py:172-187 | above that limit the envelope is rescanned and a frame embedded behind harmless bytes is delivered, where the bridge's parser delivers the response itself |
| OversizedResponses.OversizedIsDroppedExactly | firmware/backbone/tools/spaghetti.py:172-187 | an oversized frame is dropped whole, every frame behind it being read as sent, if and only if its bytes are harmless |
| OversizedResponses.HeadIsHarmlessExactly | firmware/backbone/tools/spaghetti_protocol.py:303-318 | over all correlation ids, statuses and payload lengths of a canonical response above the limit: the parser passes over its head if and only if the payload length does not end in a byte 0 or 1 and the id is not one whose bytes read as a short frame |
| OversizedResponses.PayloadIsDelivered | firmware/backbone/tools/spaghetti.py:172-187 | a serial frame at the start of such a payload is delivered by the CLI in place of the response, which the bridge's parser returns |
| Framing.RxBuffer.PopUsbFrame | firmware/backbone/tools/usb_bridge.py:73-91 | one call returns and removes exactly what the step-wise parser says |
| Framing.RxBuffer.PopFrame | firmware/backbone/tools/spaghetti.py:172-187 | the same for the CLI's parser and its limit |
| Framing.RxBuffer.Feed | firmware/backbone/tools/usb_bridge.py:604-612 | extending the buffer and popping until nothing is returned is one drain |
| Framing.DrainAppend | firmware/backbone/tools/usb_bridge.py:73-91 | draining a + b is draining a, then its residue followed by b |
| Framing.ReassemblyIgnoresChunks | firmware/backbone/tools/usb_bridge.py:73-91 | any cutting of any stream delivers the same frames and residue |
| Framing.ResidueIsShort | firmware/backbone/tools/usb_bridge.py:73-91 | a residue is shorter than a header plus the largest envelope |
| Framing.FramesAreRecovered | firmware/backbone/tools/usb_bridge.py:67-91 | frames separated by any harmless bytes come out in order and unchanged, for both parsers |
| Framing.NoiseIsHarmlessExactly | firmware/backbone/tools/usb_bridge.py:73-91 | every frame behind the noise comes out alone and whole if and only if no byte of the noise, with what follows it, reads as a frame start within the limit; for both parsers |
| Framing.StreamDeliversWhatWasSent | firmware/backbone/tools/usb_bridge.py:67-91 | the same through any chunking |
| Framing.StrayZeroSwallowsFrame | firmware/backbone/tools/usb_bridge.py:73-91 | a witness: one stray zero byte swallows a frame, while a zero followed by other text does not |
| Framing.ParsersAgree | firmware/backbone/tools/spaghetti.py:172-187 | for one limit the CLI's parser delivers the bridge's frames from every stream; the residues differ only by bytes the bridge drops at once |
| LineEditor.NetworkLineEditor.ReplaceLine | firmware/backbone/tools/device.py:777-781 | the wire deletes the old line and sends the new one; the echo redraws the row |
| LineEditor.NetworkLineEditor.Up | firmware/backbone/tools/device.py:783-791 | one entry back, stopping at the oldest; the first step sets the unfinished line aside; nothing happens on an empty history |
| LineEditor.NetworkLineEditor.Down | firmware/backbone/tools/device.py:793-802 | one entry on; past the newest the line set aside comes back; nothing happens when no entry is shown |
| LineEditor.NetworkLineEditor.RememberLine | firmware/backbone/tools/device.py:804-811 | the stripped command joins the newest 32 unless blank or a repeat; line, position and draft are cleared |
| LineEditor.NetworkLineEditor.Escape | firmware/backbone/tools/device.py:823-846 | the escape-sequence parser takes exactly one key or reports it incomplete |
| LineEditor.NetworkLineEditor.FunctionKey | firmware/backbone/tools/device.py:848-862 | the same for two-byte function keys |
| LineEditor.NetworkLineEditor.Plain | firmware/backbone/tools/device.py:864-888 | every other key makes its transition, whose effect on line, wire and echo LineEditorKeys states byte by byte |
| LineEditor.NetworkLineEditor.ProcessKeys | firmware/backbone/tools/device.py:813-890 | one call is the run of its keys after the pending bytes: state, pending bytes, wire and echo |
| LineEditorKeys.TypedTextIsTheLine | firmware/backbone/tools/device.py:883-887 | printable bytes are appended to the line and put out unchanged on wire and echo |
| LineEditorKeys.TypedLineIsEntered | firmware/backbone/tools/device.py:879-887 | with CR or LF behind them the line handed over is the old line followed by exactly those bytes |
| LineEditorKeys.FirstCommandIsRemembered | firmware/backbone/tools/device.py:804-811 | in a new session the text typed, without the blanks around it, is then the history |
| LineEditorKeys.DeleteDropsOne | firmware/backbone/tools/device.py:873-878 | backspace and delete drop the last byte, on the device and on the terminal, and nothing on an empty line |
| LineEditorKeys.KillAndInterruptEmptyTheLine | firmware/backbone/tools/device.py:864-872 | Ctrl-U deletes the line byte by byte and redraws the prompt; Ctrl-C is sent and abandons it |
| LineEditorKeys.OtherBytesAreDropped | firmware/backbone/tools/device.py:864-888 | every other single byte changes nothing and puts out nothing |
| LineEditorKeys.SequencesWait | firmware/backbone/tools/device.py:823-853 | an unfinished sequence is kept as pending bytes |
| LineEditorKeys.ControlSequences | firmware/backbone/tools/device.py:823-846 | control sequences with any parameters: final A is up, final B is down, all others and a lone escaped byte do nothing |
| LineEditorKeys.FunctionKeys | firmware/backbone/tools/device.py:848-862 | two-byte function keys: H is up, P is down, all others do nothing |
| LineEditorProperties.KeysMayArriveInPieces | firmware/backbone/tools/device.py:813-890 | cutting a key stream anywhere changes nothing: state, pending bytes, wire and echo |
| LineEditorProperties.RemoteFollows | firmware/backbone/tools/device.py:777-890 | simulation: a remote line discipline fed the wire always holds the editor's line and commits exactly the lines entered |
| LineEditorProperties.StripIsExact | firmware/backbone/tools/device.py:805 | stripping removes blanks at both ends and nothing else |
| LineEditorProperties.HistoryIsNewestCommands | firmware/backbone/tools/device.py:804-811 | the history is the newest 32 of all commands entered, blanks and immediate repeats dropped |
| LineEditorProperties.SessionHistory | firmware/backbone/tools/device.py:760-811 | in every session the history has at most 32 entries, all nonempty, trimmed, printable and unlike their neighbours |
| LineEditorProperties.ArrowEncodings | firmware/backbone/tools/device.py:837-860 | the three encodings of the arrow keys |
| LineEditorProperties.BrowsingRestoresDraft | firmware/backbone/tools/device.py:783-802 | after m ups and n downs the draft is back exactly when n >= min(m, entries), and otherwise which entry is shown |
| LineEditorProperties.EditingEndsBrowsing | firmware/backbone/tools/device.py:864-887 | every editing key ends browsing: the next up shows the newest entry and sets aside the line as edited |
| LineEditorEcho.EchoShowsTheLine | firmware/backbone/tools/device.py:777-888 | over every key stream, with the device's prompt on a new row after each Enter and Ctrl-C: the current row shows the prompt and the editor's line with the cursor behind it, and every row left still reads as the line it held |
| LineEditorEcho.ScreenIsTheEcho | firmware/backbone/tools/device.py:813-890 | between two such keys that row is drawn by exactly the echo `process` returns |
| LineEditorEcho.RowShowsTheLine | firmware/backbone/tools/device.py:777-888 | hence a terminal row driven by the echo of one call shows the prompt and the editor's line |
| CheckedMath.QuotIsTruncation | firmware/backbone/spaghetti_blocks/blocks_math.c:368 | C division: the multiple nearest to the dividend on the side of zero |
| CheckedMath.AddI64 | firmware/backbone/spaghetti_blocks/blocks_common.h:73-81 | succeeds exactly when the sum fits int64, then returns it, otherwise leaves the slot alone |
| CheckedMath.SubI64 | firmware/backbone/spaghetti_blocks/blocks_common.h:83-91 | the same for the difference |
| CheckedMath.MulI64 | firmware/backbone/spaghetti_blocks/blocks_common.h:93-119 | the same for the product |
| CheckedMath.ReadsNearestInt64 | firmware/backbone/spaghetti_blocks/blocks_common.h:27-35 | an input is read as the int64 nearest to it |
| CheckedMath.SaturatesToNearest | firmware/backbone/spaghetti_blocks/blocks_common.h:61-71 | saturation gives the value nearest to the sample between ordered bounds |
| MapRange.MapRangeBlock.Process | firmware/backbone/spaghetti_blocks/blocks_math.c:325-372 | the block's answer and errors; its unguarded addition cannot overflow |
| MapRange.MappedIsBetween | firmware/backbone/spaghetti_blocks/blocks_math.c:350-369 | every result lies between out_min and out_max, in either order |
| MapRange.MappedInterpolates | firmware/backbone/spaghetti_blocks/blocks_math.c:350-369 | the result is the exact interpolation rounded toward out_min |
| MapRange.InsideInterpolates | firmware/backbone/spaghetti_blocks/blocks_math.c:350-369 | for samples inside an ordered range the same in terms of the sample itself, sign included |
| MapRange.EndsAreExact | firmware/backbone/spaghetti_blocks/blocks_math.c:350-369 | both ends of an ordered range are exact |
| MapRange.MappedIsMonotone | firmware/backbone/spaghetti_blocks/blocks_math.c:350-369 | monotone in the input, and computable below any computable input |
| MapRange.MappedSucceedsExactly | firmware/backbone/spaghetti_blocks/blocks_math.c:291-369 | a validated block answers exactly when both spans and the product fit int64, and which error it reports otherwise, in terms of the sample and the bounds |
| MapRange.ReversedRangeIsASwitch | firmware/backbone/spaghetti_blocks/blocks_math.c:291-369 | a reversed input range, which validation admits, acts as a two-valued switch |
| FixedPoint.StepOfGap | firmware/backbone/spaghetti_blocks/blocks_filter.c:208-209 | the Q16 step is the truncated share of the gap, on its side and no longer than it |
| FixedPoint.BlendMovesByShare | firmware/backbone/spaghetti_blocks/blocks_filter.c:208-209 | the blend moves toward the sample by exactly the truncated share of the gap, bounded on both sides |
| LowPass.LowPassBlock.Process | firmware/backbone/spaghetti_blocks/blocks_filter.c:182-214 | the first sample is taken as is, later ones move the output by the truncated share of the gap; a missing input changes nothing |
| LowPass.NextMovesByShare | firmware/backbone/spaghetti_blocks/blocks_filter.c:203-210 | the first sample is the output, later ones move it by exactly the truncated share alpha of the gap |
| LowPass.FilteredStaysInRange | firmware/backbone/spaghetti_blocks/blocks_filter.c:203-210 | over every run the estimate stays in the range of the samples seen |
| LowPass.OverflowThreshold | firmware/backbone/spaghetti_blocks/blocks_filter.c:203-210 | no run of samples of magnitude at most m overflows if and only if 2 * m * alpha fits int64 |
| LowPass.SafeMagnitude | firmware/backbone/spaghetti_blocks/blocks_filter.c:203-210 | magnitudes below 2^46 are safe for every coefficient |
| LowPass.GapStep | firmware/backbone/spaghetti_blocks/blocks_filter.c:203-210 | one step keeps the gap's side and strictly shrinks it unless it is below one Q16 unit, and then nothing moves |
| LowPass.Settles | firmware/backbone/spaghetti_blocks/blocks_filter.c:203-210 | under a constant input the filter settles, on the same side, within as many samples as the initial gap, and stays |
| LowPass.GapRate | firmware/backbone/spaghetti_blocks/blocks_filter.c:203-210 | one step leaves less than the share 1 - alpha of the gap plus one unit |
| LowPass.ShrinksGeometrically | firmware/backbone/spaghetti_blocks/blocks_filter.c:203-210 | over n samples the gap's excess over the deadband shrinks at least by the n-th power of 1 - alpha |
| LowPass.SettlesFast | firmware/backbone/spaghetti_blocks/blocks_filter.c:203-210 | hence the settling time is logarithmic in the gap |
| LowPass.IterateIsARun | firmware/backbone/spaghetti_blocks/blocks_filter.c:203-210 | the settling iteration is the block's run on repeated samples |
| Kalman.KalmanBlock.Process | firmware/backbone/spaghetti_blocks/blocks_kalman.c:73-112 | the first sample is taken as is, later ones give the posterior variance and estimate within the truncations; validity is kept and only the blend needs a bound on the samples |
| Kalman.KalmanBlock.Reset | firmware/backbone/spaghetti_blocks/blocks_kalman.c:62-71 | a reset restores the initial covariance |
| Kalman.CovarianceStep | firmware/backbone/spaghetti_blocks/blocks_kalman.c:100-107 | invariant: covariance in 0..2^33, gain in 0..65535 and the truncated share of the prior variance, denominator positive, both covariance products in int64 |
| Kalman.StepIsPosterior | firmware/backbone/spaghetti_blocks/blocks_kalman.c:95-107 | one step without its divisions: the new covariance is P * r / D less at most one and plus at most P / 65536, and the estimate moves toward the sample by the share P / D of the gap, short of it by at most one unit and gap / 65536 |
| Kalman.RunInvariant | firmware/backbone/spaghetti_blocks/blocks_kalman.c:95-109 | over every run with valid variances: no error, the covariance bound, and the estimate within the range of the samples |
| Kalman.OverflowThreshold | firmware/backbone/spaghetti_blocks/blocks_kalman.c:95-107 | no configuration and run with samples up to m overflows if and only if 2 * m * 65535 fits int64 |
| SlidingWindow.PushFilling | firmware/backbone/spaghetti_blocks/blocks_filter.c:103-106 | filling the ring keeps it the last samples seen |
| SlidingWindow.PushReplacing | firmware/backbone/spaghetti_blocks/blocks_filter.c:107-112 | replacing the oldest sample keeps it the last samples seen |
| MovingAverage.MovingAverageBlock.Process | firmware/backbone/spaghetti_blocks/blocks_filter.c:82-116 | the output is the truncated average of the last min(n, window) samples |
| MovingAverage.MovingAverageBlock.TakeIn | firmware/backbone/spaghetti_blocks/blocks_filter.c:103-112 | the ring and the running sum refine the sliding window |
| MovingAverage.AverageIsBetween | firmware/backbone/spaghetti_blocks/blocks_filter.c:113 | the average lies within the minimum and maximum of its samples |
| MovingAverage.AverageIsTruncated | firmware/backbone/spaghetti_blocks/blocks_filter.c:113 | the average times the number of samples misses their sum by less than that number, toward zero |
| MovingAverage.OverflowThreshold | firmware/backbone/spaghetti_blocks/blocks_filter.c:103-112 | no run of samples of magnitude at most m overflows if and only if window * m fits int64 |
| MovingAverage.SafeMagnitude | firmware/backbone/spaghetti_blocks/blocks_filter.c:8-17 | magnitudes up to INT64_MAX/16 are safe for every window |
| Median.InsertionSort | firmware/backbone/spaghetti_blocks/blocks_filter.c:312-321 | the in-place loops sort the copied samples |
| Median.MedianBlock.Process | firmware/backbone/spaghetti_blocks/blocks_filter.c:282-325 | the output has rank n/2 among the last min(n, window) samples |
| Median.MiddleOfSortedIsMedian | firmware/backbone/spaghetti_blocks/blocks_filter.c:312-322 | the middle cell of the sorted copy has rank n/2 |
| Median.MedianIsUnique | firmware/backbone/spaghetti_blocks/blocks_filter.c:322 | the rank determines one value, and it is one of the samples |
| Median.StorageOrderMedian | firmware/backbone/spaghetti_blocks/blocks_filter.c:303-311 | sorting in storage order gives the median of the samples in time order |
| Logic.HysteresisBlock.Process | firmware/backbone/spaghetti_blocks/blocks_logic.c:178-210 | one sample makes the specified transition and is answered with the new level; a missing input changes nothing |
| Logic.HysteresisIsExact | firmware/backbone/spaghetti_blocks/blocks_logic.c:139-210 | on every run the output is the latest decision outside the open band, if and only if low < high |
| Logic.EqualThresholdsToggle | firmware/backbone/spaghetti_blocks/blocks_logic.c:149-206 | with equal thresholds a repeated sample toggles the output |
| Logic.DebounceBlock.Process | firmware/backbone/spaghetti_blocks/blocks_logic.c:276-310 | one sample makes the specified transition and is answered with the new output; a missing input changes nothing |
| Logic.DebounceFollows | firmware/backbone/spaghetti_blocks/blocks_logic.c:265-307 | over every run since a reset the output is the sample at the latest position ending `required` equal samples, or false |
| Client.SearchVisitsEveryId | firmware/backbone/tools/spaghetti_protocol.py:1831-1840 | one search passes each of 1..2^32-1 exactly once |
| Client.SpaghettiClient.AllocateCorrelationId | firmware/backbone/tools/spaghetti_protocol.py:1831-1840 | returns the next unused nonzero id, and fails exactly when there is none |
| Client.SpaghettiClient.Call | firmware/backbone/tools/spaghetti_protocol.py:1842-1908 | all requests of a call are identical copies, how many are sent, the outcome, and which ids stay reserved |
| Client.CallPromises | firmware/backbone/tools/spaghetti_protocol.py:1842-1908 | for any transport: at most max_retries + 1 sends, none after a deciding reaction, a payload only from a matching ok response, errors from the last reaction, the id kept exactly when a late retry was refused |
| Client.AnswerIsReturned | firmware/backbone/tools/spaghetti_protocol.py:1850-1885 | the first allowed matching ok response is returned |
| Client.OnlyThreeErrorsEndACall | firmware/backbone/tools/spaghetti_protocol.py:1873-1891 | conflict, unauthorized and invalid argument end a call at the first send, no other error does |
| Client.SpaghettiClient.ObserveBootId | firmware/backbone/tools/spaghetti_protocol.py:1825-1829 | a reboot forgets all reserved ids and drops the cached catalog |
| Client.SpaghettiClient.Close | firmware/backbone/tools/spaghetti_protocol.py:1668-1670 | closing touches nothing but the flag under which Call refuses every request without sending it |
| Catalog.FakeServerIsFaithful | firmware/backbone/tools/spaghetti_protocol.py:2004-2036 | the fake Core pages its list faithfully on the cursors it hands out |
| Catalog.CatalogClient.GetCatalog | firmware/backbone/tools/spaghetti_protocol.py:1678-1711 | the paging loop with its restart equals the stepwise fetch; the cache is filled by a result, and otherwise dropped exactly when the fetch started over |
| Catalog.EachDriverGetsItsSchema | firmware/backbone/tools/spaghetti_protocol.py:504-522 | every driver keeps its place, name and commands and gets the schema filed under its own name |
| Catalog.CacheIsDroppedExactly | firmware/backbone/tools/spaghetti_protocol.py:1690-1695 | against the fake Core the first pass starts over exactly when its first two pages come from catalogs with different fingerprints |
| Catalog.RaisingFailsExactly | firmware/backbone/tools/spaghetti_protocol.py:1678-1711 | a call that raises ends the fetch in failure unless it was over before, and nothing else fails it |
| Catalog.SteadyFetchCosts | firmware/backbone/tools/spaghetti_protocol.py:1678-1711 | from a fake Core that holds still the catalog costs one request, or two with more than one driver |
| Catalog.CatalogClient.Invalidate | firmware/backbone/tools/spaghetti_protocol.py:1672-1676 | when the cache is dropped |
| Catalog.FetchIsNeverTorn | firmware/backbone/tools/spaghetti_protocol.py:1678-1711 | however the catalog changes between requests, a returned list is the whole list the server held at the last request, under its one fingerprint, for every faithful paging server |
| Catalog.ReturnedCatalogIsComplete | firmware/backbone/tools/spaghetti_protocol.py:1702-1711 | the same for the result with schemas attached |
| Catalog.EndsOnceSteady | firmware/backbone/tools/spaghetti_protocol.py:1678-1711 | from any point of a fetch, three equal replies in a row end it |
| Catalog.SteadyFakeServerIsRead | firmware/backbone/tools/spaghetti_protocol.py:1678-1711 | after any replies, three in a row from one catalog end the fetch, and if it was not over before, that catalog is returned |
| Catalog.NeverTornExactly | firmware/backbone/tools/spaghetti_protocol.py:2004-2036 | over all reply sequences from any set of catalogs no fetch is torn, if and only if catalogs sharing a fingerprint, one of them with two pages, agree on their first driver |
| Catalog.ReusedFingerprintTears | firmware/backbone/tools/spaghetti_protocol.py:485-501 | a witness: two lists under one fingerprint, and a list that never existed is returned |
| WireValues.IntRoundTrip | firmware/backbone/tools/spaghetti_protocol.py:190-209 | every integer survives as a decimal string |
| WireValues.HexRoundTrip | firmware/backbone/tools/spaghetti_protocol.py:179-187 | every byte string survives as hex |
| WireValues.WireValueRoundTrip | firmware/backbone/tools/spaghetti_protocol.py:228-256 | every wire value survives the trip through JSON with its decoded type |
| WireValues.InferredRoundTrip | firmware/backbone/tools/spaghetti_protocol.py:212-225 | when the type is inferred instead: integers and booleans survive, text exactly when it is neither an integer string nor an even number of hex digits, bytes exactly when nonempty and not all digits in hex |
| Config.EncodePropertiesLoop | firmware/backbone/tools/spaghetti_protocol.py:625-646 | the property loop writes the sorted dictionary or raises |
| Config.DecodePropertiesLoop | firmware/backbone/tools/spaghetti_protocol.py:649-669 | the decoding loop names and types every field |
| Config.PutIsUpdate | firmware/backbone/tools/spaghetti_protocol.py:645-646 | of two names for one field the later wins and no other field is touched |
| Config.EncodedIsSorted | firmware/backbone/tools/spaghetti_protocol.py:625-646 | an encoded dictionary is sorted and has no field zero |
| Config.PropertiesRoundTrip | firmware/backbone/tools/spaghetti_protocol.py:625-669 | decoding and encoding again is the identity on such dictionaries |
| Config.EncodingIsStable | firmware/backbone/tools/spaghetti_protocol.py:672-821 | encode(decode(encode(c))) == encode(c) for every Config that can be encoded |
| ConfigContents.DecimalDigits | firmware/backbone/tools/spaghetti_protocol.py:206-209 | numbers are written in decimal, digit by digit |
| ConfigContents.DecimalIsCanonical | firmware/backbone/tools/spaghetti_protocol.py:190-209 | leading zeros do not count; a text is what its number is written as exactly when it has none |
| ConfigContents.HexIsReadExactly | firmware/backbone/tools/spaghetti_protocol.py:183-187 | which texts are read as which bytes: blanks around, at most one prefix, two digits per byte in either case |
| ConfigContents.ConvertsExactly | firmware/backbone/tools/spaghetti_protocol.py:190-248 | which wire value a JSON value stands for under each type |
| ConfigContents.InferredExactly | firmware/backbone/tools/spaghetti_protocol.py:212-248 | and which one when the type is inferred |
| ConfigContents.WrittenExactly | firmware/backbone/tools/spaghetti_protocol.py:630-645 | a property is written under the number its name spells, by the type recorded for the name, else for the number, else inferred |
| ConfigContents.PropertiesHold | firmware/backbone/tools/spaghetti_protocol.py:625-646 | a dictionary holds per field the last value written for it and nothing else, and is refused exactly when some property cannot be written |
| ConfigContents.DecodedHold | firmware/backbone/tools/spaghetti_protocol.py:649-669 | decoding names each field by its plain number and gives a value that stands for the same thing; integers are numbers exactly in the safe range |
| ConfigContents.EncodedConfigHolds | firmware/backbone/tools/spaghetti_protocol.py:672-741 | a document carries every part of its Config in its place |
| ConfigContents.EncodableExactly | firmware/backbone/tools/spaghetti_protocol.py:672-741 | a Config can be encoded exactly when every property in it can be written |
| ConfigServer.FakeCore.HandleApply | firmware/backbone/tools/spaghetti_protocol.py:2062-2081 | one apply request: conflict, failure, or the new Config and generation |
| ConfigServer.StepSwaps | firmware/backbone/tools/spaghetti_protocol.py:2062-2081 | only a change of content moves the generation, by one, and only from the expected one |
| ConfigServer.OneChangePerGeneration | firmware/backbone/tools/spaghetti_protocol.py:2062-2081 | over any interleaving of clients at most one changing apply succeeds per generation |
| ConfigServer.AcceptedApplyReplacesWhatWasRead | firmware/backbone/tools/spaghetti_protocol.py:2047-2081 | no lost update: an accepted apply replaces exactly the Config its client read |
| ConfigServer.ReapplyingSnapshotIsNoOp | firmware/backbone/tools/spaghetti_protocol.py:2047-2081 | applying an unedited snapshot changes nothing |
| ConfigServer.AppliedConfigIsReadBack | firmware/backbone/tools/spaghetti_protocol.py:2047-2081 | an apply of any encodable Config succeeds if and only if it names the current generation; the reply carries the document sent, the generation moves exactly when the content changes, and the next snapshot shows both |
| Update.UpdateSession.Open | firmware/backbone/tools/spaghetti_protocol.py:2167-2184 | opening numbers the session anew and discards everything accepted before |
| Update.UpdateSession.Write | firmware/backbone/tools/spaghetti_protocol.py:2186-2202 | one chunk: accepted at the session's offset, otherwise refused without a change |
| Update.UpdateSession.Finish | firmware/backbone/tools/spaghetti_protocol.py:2204-2210 | finalisation flips the slot and leaves the image unconfirmed |
| Update.UpdateSession.WriteChunk | firmware/backbone/tools/spaghetti_protocol.py:2268-2281 | the channel refuses oversized chunks, opens a session if none is active, and otherwise writes at the given offset |
| Update.UpdateSession.Run | firmware/backbone/tools/spaghetti_protocol.py:2337-2399 | a whole update call under any disturbance, Ctrl-C before and after each step and the finalisation included, equals the stepwise transfer |
| Update.ChunkAdvances | firmware/backbone/tools/spaghetti_protocol.py:2379-2384 | total minus offset decreases with every accepted chunk |
| Update.ChunkKeepsPrefix | firmware/backbone/tools/spaghetti_protocol.py:2186-2202 | an accepted chunk extends the prefix of the one image, a refused one changes nothing |
| Update.ChannelComparesOffsetsOnly | firmware/backbone/tools/spaghetti_protocol.py:2268-2281 | a chunk of any image is accepted exactly at the open session's offset |
| Update.CallIsSafe | firmware/backbone/tools/spaghetti_protocol.py:2337-2399 | whatever disturbs the call, the session stays a prefix of the image, a flipped slot means that exactly the image was accepted and left unconfirmed, and only success or an interruption can be reported then |
| Update.TransferFlipsExactly | firmware/backbone/tools/spaghetti_protocol.py:2367-2399 | a transfer from any offset flips the slot if and only if it starts where the session stands, every chunk goes through and no Ctrl-C comes before the finalisation; it reports success if and only if, besides, none comes right behind it |
| Update.SlotFlipsExactly | firmware/backbone/tools/spaghetti_protocol.py:2337-2399 | the same for a whole call, with any session, any resume record and any disturbances |
| Update.UnreportedFlipExactly | firmware/backbone/tools/spaghetti_protocol.py:2385-2399 | a fresh upload flips the slot without reporting success if and only if its first disturbance is a Ctrl-C right behind the finalisation |
| Update.InterruptedAfterFlip | firmware/backbone/tools/spaghetti_protocol.py:2385-2399 | a witness: such a run for any one-chunk image |
| Update.EveryHistoryIsSafe | firmware/backbone/tools/spaghetti_protocol.py:2167-2399 | over any sequence of calls, images, resume records and interruptions the invariant holds, the slot is the parity of the calls that met the exact condition above, and no more calls report success than met it |
| Update.StaleOffsetAcceptsNothing | firmware/backbone/tools/spaghetti_protocol.py:2195-2209 | a resume at another offset than the session's accepts nothing, whatever happens; undisturbed it is refused, at the chunk or at finalisation, unless the session already holds the whole image |
| Update.ResumeCompletes | firmware/backbone/tools/spaghetti_protocol.py:2352-2396 | resuming with the session's own status completes the image |
| Update.AbortedUpdateIsResumable | firmware/backbone/tools/spaghetti_protocol.py:2352-2399 | an update aborted after any chunk can be completed from where it stopped |
| UpdateOutcomes.CancelledExactly | firmware/backbone/tools/spaghetti_protocol.py:2212-2218 | over every session, image, record and disturbances: a call leaves session id 0 if and only if its first disturbance, at a chunk it reaches or around the finalisation, is a cancel request or a Ctrl-C; the session is then inactive and cancelled with offset and size 0, and the outcome is unavailable or the interruption |
| UpdateOutcomes.CancelledUpdateRestarts | firmware/backbone/tools/spaghetti_protocol.py:2352-2373 | the call behind a cancel starts over under id 1 from offset 0, whatever record it brings, and can complete |
| UpdateOutcomes.OldRecordMatchesAgain | firmware/backbone/tools/spaghetti_protocol.py:2175-2218 | a witness that this is about the next call only: ids are used again behind a cancel |
| UpdateOutcomes.FreshUploadStops | firmware/backbone/tools/spaghetti_protocol.py:2352-2384 | an upload without a matching record: the whole session after a link lost at chunk k, or an abort behind it |
| UpdateOutcomes.FreshUploadEnds | firmware/backbone/tools/spaghetti_protocol.py:2352-2396 | and after an undisturbed upload |
| UpdateOutcomes.ResumedUploadStops | firmware/backbone/tools/spaghetti_protocol.py:2360-2384 | the same for an upload resumed at the session's own offset |
| UpdateOutcomes.ResumedUploadEnds | firmware/backbone/tools/spaghetti_protocol.py:2360-2396 | and its undisturbed end |
| UpdateOutcomes.ImageIsRecognisedExactly | firmware/backbone/tools/spaghetti_protocol.py:2298-2306 | an image is refused, without a trace, exactly when it is shorter than 32 bytes or does not start with the boot magic |

## Left out

- Serial ports, sockets, MQTT, BLE, web sockets, argument parsing, terminal colours and build scripts: plumbing around the modelled code.
- The display of a reply's submessage in `parse_core` (version, message and detail texts, node lists): `CoreLink` keeps the submessage's fields.
- Device-side receivers of COBS and serial frames: their implementation is not part of the repository; the retry lemmas speak of any receiver that runs the same loop.
- `SerialProtocolTransport.send`, which returns on the first response and drops events: a thin loop over the modelled parser.
- Update calls that run at the same time on one session: the channel writes with the session's current id and compares offsets only (`Update.ChannelComparesOffsetsOnly`), so interleaved calls at equal offsets are not kept apart; the update lemmas are about calls one after the other.
- `driver_count` and the version fields that a merged catalog takes from its pages: the catalog lemmas are about its drivers, their order and its fingerprint.
- `verify_signed_image_local` beyond its size and magic checks, and image version strings: they are only reported.
- Decoding arbitrary CBOR, envelope sizes after encoding, and SHA-256: documents are values, the request encoder is a parameter of `Client`.
- A negative `max_retries`, with which a call would send nothing and time out: `Client` models zero or more retries.
- Wall-clock time of the replay window and of reads: a choice of the environment per attempt.
- Non-ASCII digits, and blanks beyond ASCII, in property names and hex strings, which the regular expressions also admit.
- `user_json_to_config`, `get_topology`, discovery, leases and the other simple operations of the client: easy members.
- NULL pointers and output-slot counts of the block interface: a missing or invalid input is the one refused case that remains.
- Unit conversion, clamp, select, lookup, bitwise, publish and floating-point blocks: easy members or outside integer arithmetic.
- LineEditorEcho.EchoShowsTheLine: takes for granted that the device prints its prompt on a new row before the next key is echoed; how device output interleaves with later echo is not modelled.
- Catalog.FetchIsNeverTorn: assumes that equal fingerprints mean equal lists for an arbitrary paging server; the exact condition is proved for the fake Core's two pages only (`Catalog.NeverTornExactly`).
