# Voice over UDP: codec, frames, pacing and session logic

The system is a pair of Swing windows that carry voice over UDP.

- **AudioSender** reads 16-bit little-endian mono PCM at 8000 Hz from the microphone, 640 bytes (320 samples, 40 ms) at a time. It encodes each sample to one µ-law byte with `linearToULaw` and sends each 320-byte frame as one datagram.
- **AudioReciever** receives datagrams into a 320-byte buffer and expands every byte back into a 16-bit sample with `uLawToLinear`. It paces playback against a deadline that advances by 40 ms per frame, then writes the 640 PCM bytes to the speakers.
- Each window has a Start and a Stop button and a worker thread, coordinated through a `sending` / `receiving` flag and, in the receiver, the `socket` field.

The model has four parts.

- **Java integers** (`java_int.dfy`, module `JavaInt`). `byte`, `short` and `long` are subset types of `int`. The operators the codec uses are written out exactly: `>>`, `<<`, `~`, `&`, `|`, the narrowing casts and the truncating `/`.
- **The µ-law codec** (`ulaw_encoder.dfy`, `ulaw_decoder.dfy`).
  - `linearToULaw` is a method with the source's exponent-search loop. It is proved to compute the function `Encode`.
  - `uLawToLinear` is the function `ULawToLinear`.
  - Lemmas give the codec's fields, its sign symmetry, saturation, monotonicity, the exact conditions under which the decoder's `(short)` cast wraps, and pinned values.
- **The frame loops** (`pcm_frames.dfy`). These are array methods with the source's `i` / `j += 2` loops. Each is proved to produce a frame function (`EncodedFrame`, `DecodedFrame`), and lemmas state each frame function byte by byte.
- **Pacing** (`pacing.dfy`). The receiver's `nextPlay` / `Thread.sleep` arithmetic in `long`. The clock readings are an input sequence, and the sleep is returned as the value `Thread.sleep` would receive.
- **Sessions** (`sender_session.dfy`, `receiver_session.dfy`).
  - Each window is a pure event machine: a state datatype, one transition per button click or worker step, an invariant and lemmas about runs.
  - Each window is also a class (`AudioSender`, `AudioReceiver`) whose fields and arrays hold that state. Each of its methods is proved to perform one transition.

Structure and behaviour worth knowing:

- **The codec does not invert.** The decoder's formula `(((m << 4) + 8) << (e + 3)) - 132` is not the inverse of the encoder, which for exponent 0 shifts by 4.
  - `decode(encode(0))` is 956 (`ULawDecoder.DecodePins`, `ULawEncoder.QuietBand`).
  - No round-trip property holds, so none is stated. `PcmFrames.FrameToFrame` states what the receiver does play for a sent frame.
- **Decoder wrap-around.** The magnitude exceeds 32767, and the `(short)` cast wraps, exactly for e = 5 with m ≥ 8, e = 6 with m ≥ 4, and e = 7 with m ≥ 2 (`ULawDecoder.WrapsIff`). It is not true that every e ≥ 6 wraps: e = 6, m = 0 gives 3964.
- **Sender Start stays disabled after a normal stop.** After Stop and a normal loop exit, the sender closes the microphone and the socket but never re-enables Start (`SenderSession.WorkerEnds`, `SenderSession.StrandedAfterStop`, `SenderSession.NormalStopStrands`). Only the catch block resets the buttons, although the comment at AudioSender.java:216 speaks of a catch/finally reset.
- **The receiver's scheduled close can find `socket` null.** `stopReceiving` schedules `socket.close()` on the event thread, which reads the field when it runs. If the worker's `finally` has already cleared `socket`, the close throws a NullPointerException on the event thread (`ReceiverSession.CloseAfterFinally`). Stop's handler queues that close before it returns, and a Start click can only follow the `finally` block's queued button reset, which is dispatched after that handler, so the close runs before any later Start click and never reaches the socket of a worker started afterwards (`ReceiverSession.FrozenUntilClose`, `ReceiverSession.CloseBeforeRestart`).
- **The receiver can reach a second worker.** A Stop before the bind finds `socket` null and re-enables Start while the first worker is still alive (`ReceiverSession.StopBeforeBind`).

## Model

| member | source | states |
|---|---|---|
| JavaInt.ToShort | AudioSender.java:228-230 | the `(short)` narrowing leaves a value that fits unchanged and always yields a `short` |
| JavaInt.ToLong | AudioReciever.java:200-201 | the value of a `long` expression is always a `long` and equals the exact result when that fits |
| JavaInt.Quot | AudioReciever.java:200 | Java's `/` truncates toward zero: for x ≥ 0, q·d ≤ x < (q+1)·d; for x < 0, (q−1)·d < x ≤ q·d ≤ 0 |
| JavaInt.UByte | AudioSender.java:192 | `b & 0xFF` is in [0, 256) and equals b for a non-negative byte |
| JavaInt.FlipBit7 | AudioReciever.java:264 | flipping bit 7 keeps the low seven bits and toggles the top bit of the unsigned byte |
| JavaInt.LongWrap | AudioReciever.java:201 | two exact results congruent modulo 2^64 give the same `long` value |
| JavaInt.ByteBits | AudioSender.java:192 | `(byte) x & 0xFF` is x modulo 256 |
| JavaInt.ToByte | AudioSender.java:235-236 | the `(byte)` narrowing leaves a value in [−128, 127] unchanged |
| JavaInt.ToInt | AudioReciever.java:267 | the value of an `int` expression fits in 32 bits and equals the exact result when that fits |
| JavaInt.ShrDiv | AudioSender.java:234 | `x >> k` is x divided by 2^(k mod 32), rounding down |
| JavaInt.ScaleMul | AudioReciever.java:267 | `x << k` is x·2^k |
| JavaInt.AndLowBits | AudioReciever.java:266 | `x & (2^k − 1)` is x mod 2^k |
| JavaInt.AndBit | AudioReciever.java:264 | `x & 2^k` is 2^k times bit k of x |
| JavaInt.AndScaled | AudioReciever.java:265 | `x & (2^k·m)` is 2^k times `(x / 2^k) & m` |
| JavaInt.OrDisjoint | AudioSender.java:235-236 | `\|` of a multiple of 2^k and a value below 2^k is their sum |
| JavaInt.AndPlusOr | AudioSender.java:192 | `(x & y) + (x \| y)` is x + y |
| ULawEncoder.LinearToULaw | AudioSender.java:225-237 | the encoder, with its exponent-search loop, returns exactly `Encode(sample)` |
| ULawEncoder.SignAndMagnitude | AudioSender.java:227-230 | the sign is 0x80 for a negative sample and 0 otherwise; the magnitude is min(&#124;x&#124;, 32635) + 132, except that −32768 stays −32768 + 132 because the negation wraps |
| ULawEncoder.Exponent | AudioSender.java:232-233 | the exponent the search stops at is at most 7 |
| ULawEncoder.SignFieldValue | AudioSender.java:227 | `(sample >> 8) & 0x80` is 0x80 exactly for a negative sample and 0 otherwise |
| ULawEncoder.BiasedMagnitudeValue | AudioSender.java:228-230 | the biased magnitude is min(&#124;x&#124;, 32635) + 132, except that −32768 stays −32768 + 132 because the negation wraps |
| ULawEncoder.MantissaValue | AudioSender.java:234 | the mantissa is (v >> shift) mod 16 and lies in [0, 15] |
| ULawEncoder.Encode | AudioSender.java:226-236 | the encoded byte, read unsigned, is 0xFF minus the sign bit (0x80 exactly for a negative sample) and the 7-bit code of the biased magnitude |
| ULawEncoder.Code | AudioSender.java:232-236 | the code `(exponent << 4) \| mantissa` is in [0, 0x7F] |
| ULawEncoder.PackFields | AudioSender.java:235-236 | `(byte) ~(sign \| (exponent << 4) \| mantissa)` read unsigned is 0xFF − (sign + 16·exponent + mantissa) |
| ULawEncoder.ComplementByte | AudioSender.java:235 | `(byte) ~z` read unsigned is 0xFF − z for 0 ≤ z ≤ 0xFF |
| ULawEncoder.ExponentAtLeast | AudioSender.java:232-233 | for 1 ≤ k ≤ 7 the exponent is at least k exactly when v ≥ 2^(k+7) |
| ULawEncoder.ExponentBand | AudioSender.java:230-234 | the exponent is 0 exactly when v < 256, and e ≥ 1 exactly when 2^(e+7) ≤ v < 2^(e+8) |
| ULawEncoder.ExponentMonotone | AudioSender.java:232-233 | a larger biased magnitude never gets a smaller exponent |
| ULawEncoder.MantissaInBand | AudioSender.java:234 | within its band the mantissa is v / 2^shift, less 16 for exponents from 1 up |
| ULawEncoder.CodeMonotone | AudioSender.java:230-234 | the uncomplemented code `(exponent << 4) \| mantissa` is non-decreasing in the biased magnitude |
| ULawEncoder.SignBit | AudioSender.java:227-236 | bit 7 of the output is clear exactly when the sample is negative, −32768 included |
| ULawEncoder.Symmetric | AudioSender.java:227-228 | for 1 ≤ x ≤ 32767, encode(−x) is encode(x) with bit 7 flipped |
| ULawEncoder.SignOnly | AudioSender.java:227-236 | a non-negative and a negative sample with the same biased magnitude differ only in bit 7 |
| ULawEncoder.Saturates | AudioSender.java:229-236 | every sample ≥ 32635 encodes like 32635, to 0x80 |
| ULawEncoder.TopCode | AudioSender.java:229-236 | every sample ≥ 0x7C00 − 132 encodes to 0x80 |
| ULawEncoder.CodeLow | AudioSender.java:232-234 | below 256 the exponent is 0 and the code is v / 16 |
| ULawEncoder.CodeTop | AudioSender.java:232-234 | from 0x4000 up the exponent is 7 and the code is 0x70 + (v / 0x400) mod 16 |
| ULawEncoder.EncodeLow | AudioSender.java:226-236 | for &#124;x&#124; ≤ 123 the unsigned output is 0xFF − sign bit − (&#124;x&#124; + 132) / 16 |
| ULawEncoder.QuietBand | AudioSender.java:226-236 | samples with &#124;x&#124; ≤ 11, 0 and −1 among them, encode to 0xF7 when non-negative and 0x77 when negative |
| ULawEncoder.BottomCode | AudioSender.java:226-236 | negative samples down to −32767 whose biased magnitude reaches 0x7C00 encode to 0 |
| ULawEncoder.EncodeExtremes | AudioSender.java:226-236 | encode(32767) = 0x80, encode(−32767) = 0, and encode(−32768) = 0x77 because the negation wraps |
| ULawDecoder.FieldCode | AudioReciever.java:263 | the complemented byte read unsigned is 0xFF minus the unsigned input |
| ULawDecoder.Magnitude | AudioReciever.java:267 | the unbounded magnitude lies in [−68, 253820]; −68 is reached at e = 0, m = 0 |
| ULawDecoder.Fields | AudioReciever.java:263-266 | the sign, exponent and mantissa fields are bit 7, bits 4-6 and bits 0-3 of the field code |
| ULawDecoder.ULawToLinear | AudioReciever.java:262-268 | the decoder returns the `short` truncation of ±((16m + 8)·2^(e+3) − 132) for the fields of the complemented byte, negated when its bit 7 is set |
| ULawDecoder.SampleExact | AudioReciever.java:267 | the `int` shifts in the magnitude expression never overflow |
| ULawDecoder.SignFlip | AudioReciever.java:264-268 | flipping bit 7 of the input negates the output modulo 2^16 |
| ULawDecoder.ExactUnlessWraps | AudioReciever.java:267-268 | the output equals the signed magnitude exactly when the field code is not one that wraps |
| ULawDecoder.WrapsIff | AudioReciever.java:267-268 | the magnitude exceeds 32767 exactly for e = 5, m ≥ 8; e = 6, m ≥ 4; e = 7, m ≥ 2; it is never 32768 |
| ULawDecoder.MagnitudeLow | AudioReciever.java:267 | for e ≤ 4 the magnitude is at most 31612 |
| ULawDecoder.MagnitudeHigh | AudioReciever.java:267 | the magnitude for e = 5, 6, 7 in closed form |
| ULawDecoder.DecodePins | AudioReciever.java:262-268 | decode(0xFF) = −68, decode(0x7F) = 68, decode(0xF7) = 956, decode(0x80) = −8324 |
| ULawDecoder.ExpandedExponentZero | AudioReciever.java:267-268 | for exponent 0 the output is ±(128m − 68) |
| PcmFrames.Zeros | AudioSender.java:185-186 | a new Java byte array has the requested length and every element 0 |
| PcmFrames.PackFrame | AudioSender.java:191-194 | one output byte per two input bytes |
| PcmFrames.UnpackFrame | AudioReciever.java:191-195 | two output bytes per input byte |
| PcmFrames.EncodeFrame | AudioSender.java:185-194 | the sender's loop fills `ulawBuffer` with the encoded frame of `buffer`, and `buffer` is not written |
| PcmFrames.EncodedFrameIs | AudioSender.java:191-194 | a buffer holding the encoding of each sample in order is the encoded frame |
| PcmFrames.DecodeFrame | AudioReciever.java:180-195 | the receiver's loop fills `pcmBuffer` with the decoded frame of all 320 bytes of `ulawBuffer` |
| PcmFrames.DecodedFrameIs | AudioReciever.java:191-195 | a buffer holding the low and high byte of each decoded byte in order is the decoded frame |
| PcmFrames.JoinValue | AudioSender.java:192 | `(short) ((hi << 8) \| (lo & 0xFF))` is the signed little-endian value 256·hi + unsigned lo |
| PcmFrames.SplitJoin | AudioReciever.java:193-194 | splitting a short into `(byte) s` and `(byte) (s >> 8)` and joining them with the sender's expression gives it back |
| PcmFrames.PackFrameAt | AudioSender.java:191-193 | byte i of a packed frame is the codec applied to sample i |
| PcmFrames.UnpackFrameAt | AudioReciever.java:191-195 | bytes 2i and 2i+1 of an unpacked frame are the low and high byte of the codec applied to byte i |
| PcmFrames.EncodedSampleValue | AudioSender.java:185-194 | a 640-byte buffer gives 320 bytes, and byte i encodes 256·buffer[2i+1] + unsigned buffer[2i] |
| PcmFrames.DecodedFrameAt | AudioReciever.java:191-195 | the decoded frame is twice as long, with byte 2i the sample mod 256 and byte 2i+1 the sample div 256 |
| PcmFrames.SplitValue | AudioReciever.java:193-194 | the low byte read unsigned is s mod 256 and the high byte is s div 256 |
| PcmFrames.UnpackedSamples | AudioReciever.java:191-195 | reading an unpacked frame back with the sender's expression gives the codec's samples |
| PcmFrames.FrameToFrame | AudioSender.java:191-194 | sample i the receiver plays for a sent frame is decode(encode(sample i)) |
| Pacing.Deadline | AudioReciever.java:184-201 | the deadline after k frames is t0 + k·40 ms whenever that fits in a `long` |
| Pacing.PaceFrames | AudioReciever.java:184-201 | over the clock readings, sleep k is the call for deadline t0 + k·40 ms and reading k and does not throw; the loop stops only at a throwing sleep; the final deadline is the one after the completed passes |
| Pacing.DeadlineStep | AudioReciever.java:201 | `nextPlay += frameTime` moves the deadline after k frames to the one after k+1, through any `long` wrap |
| Pacing.DeadlineStart | AudioReciever.java:184 | the first deadline is the first clock reading |
| Pacing.SleepCall | AudioReciever.java:198-200 | no sleep exactly when `now` ≥ `nextPlay`; for a gap that fits, a sleep of ⌊gap / 10^6⌋ ms, never more than the gap; an overflowing gap wraps and throws exactly when the wrapped gap is ≤ −10^6 |
| Pacing.Advance | AudioReciever.java:201 | `nextPlay += frameTime` is the exact sum while it fits in a `long`, and always the sum modulo 2^64 |
| SenderSession.Refill | AudioSender.java:189 | after a read, the bytes read are at the front and the rest of the buffer is unchanged |
| SenderSession.Start | AudioSender.java:168-174 | `startSending` keeps the invariant and sends nothing |
| SenderSession.Stop | AudioSender.java:214-218 | `stopSending` keeps the invariant, clears the flag and touches neither the worker nor the buttons |
| SenderSession.Crash | AudioSender.java:203-209 | from any step with frame-sized buffers the catch block leaves the window in the invariant, sends nothing, and loses no count of abandoned resources |
| SenderSession.SetupStep | AudioSender.java:176-186 | the end of the setup keeps the invariant and sends nothing |
| SenderSession.PassStep | AudioSender.java:188-196 | a pass of the loop keeps the invariant |
| SenderSession.ExitStep | AudioSender.java:199-202 | the loop exit keeps the invariant, leaves Start as it was, abandons nothing and sends nothing |
| SenderSession.Step | AudioSender.java:168-218 | every click and worker step keeps Stop enabled exactly when Start is not, Start enabled only with no worker and the flag clear, microphone and socket open exactly while streaming, and the buffer sizes |
| SenderSession.InitialInv | AudioSender.java:78-80 | the window as built, with only Start enabled, satisfies the invariant |
| SenderSession.RunKeepsInv | AudioSender.java:168-218 | every event sequence keeps the invariant |
| SenderSession.SendRule | AudioSender.java:188-196 | a read of nothing changes nothing; a datagram is sent exactly when something was read and the send goes through, and it is the encoding of the whole refilled buffer |
| SenderSession.StaleSamples | AudioSender.java:189-194 | after a partial read, samples past the bytes read are encoded from the bytes left by earlier reads |
| SenderSession.EncodedLength | AudioSender.java:186-191 | a 640-byte buffer encodes to a 320-byte frame |
| SenderSession.WorkerEnds | AudioSender.java:199-209 | a normal loop exit closes microphone and socket but leaves Start disabled; every other end re-enables Start, disables Stop and clears the flag |
| SenderSession.StrandedAfterStop | AudioSender.java:199-218 | after a normal exit no sequence of events re-enables Start, starts a worker or sends anything |
| SenderSession.NormalStopStrands | AudioSender.java:168-218 | Start, a successful setup, Stop and the loop exit reach that stranded state |
| SenderSession.AudioSender.constructor | AudioSender.java:78-80 | the window as built |
| SenderSession.AudioSender.StartSending | AudioSender.java:168-174 | `startSending` sets the flag, disables Start, enables Stop and launches the worker |
| SenderSession.AudioSender.StopSending | AudioSender.java:214-218 | `stopSending` only clears the flag |
| SenderSession.AudioSender.Fail | AudioSender.java:203-209 | the catch block resets the buttons and the flag; the microphone and socket it leaves open are no longer held by a worker and are counted in `abandoned` |
| SenderSession.AudioSender.SetupWorker | AudioSender.java:176-186 | the setup either yields fresh zeroed buffers and starts streaming, or fails into the catch block |
| SenderSession.AudioSender.ReadAndSend | AudioSender.java:189-196 | one pass: the read lands in the buffer and, when bytes were read, the whole frame is encoded in place and sent, or the catch block runs |
| SenderSession.AudioSender.FinishStreaming | AudioSender.java:199-202 | the loop exit closes the microphone and socket and touches nothing else |
| ReceiverSession.Received | AudioReciever.java:188 | after `receive`, the datagram's bytes, cut to 320, are at the front and the rest is the previous content |
| ReceiverSession.InitialInv | AudioReciever.java:73-75 | the window as built satisfies the invariant |
| ReceiverSession.Finally | AudioReciever.java:217-234 | the `finally` block ends the worker in the invariant, records exactly its exit, and leaves the played frames and queued closes alone |
| ReceiverSession.Start | AudioReciever.java:158-164 | `startReceiving` keeps the invariant, sets the flag and starts a binding worker, with nothing played or logged |
| ReceiverSession.Stop | AudioReciever.java:238-254 | `stopReceiving` keeps the invariant, clears the flag and leaves the worker where it is |
| ReceiverSession.BindStep | AudioReciever.java:168-216 | parsing and binding keep the invariant, and the worker holds a bound socket exactly when the bind succeeds |
| ReceiverSession.LineStep | AudioReciever.java:172-185 | the rest of the setup keeps the invariant; the loop is entered exactly when the socket is not closed and the line is ready, with the first deadline the clock reading |
| ReceiverSession.TestStep | AudioReciever.java:187-188 | the loop test keeps the invariant, and the worker blocks in `receive` exactly when the flag is set and the socket is not closed |
| ReceiverSession.DatagramStep | AudioReciever.java:188-203 | one frame keeps the invariant |
| ReceiverSession.ReceiveErrorStep | AudioReciever.java:188-234 | a `receive` that throws keeps the invariant, ends the worker with the socket not open and the flag cleared, and logs the SocketException rule's exit for a SocketException and a critical error for any other exception |
| ReceiverSession.DecodeStep | AudioReciever.java:188-195 | `receive` and the decode loop keep the invariant and the buffer length, and touch neither the worker, the deadline nor the played frames |
| ReceiverSession.PlayStep | AudioReciever.java:197-203 | within the loop, pacing keeps the invariant; the worker goes on exactly when the sleep does not throw, and then the PCM buffer is played, and otherwise nothing is |
| ReceiverSession.CloseStep | AudioReciever.java:242-247 | a scheduled close keeps the invariant, uses up one queued close, and touches neither the deadline nor the played frames |
| ReceiverSession.Step | AudioReciever.java:158-254 | every event keeps Stop enabled exactly when Start is not, the flag set only with Stop enabled, `socket` stored exactly while the worker holds it, and a waiting worker's socket open |
| ReceiverSession.RunKeepsInv | AudioReciever.java:158-254 | every event sequence keeps the invariant |
| ReceiverSession.ExitsAreClean | AudioReciever.java:217-233 | a step that ends the worker records exactly one exit and leaves the flag false, `socket` null, Start enabled, Stop disabled and the socket not open; other steps record no exit |
| ReceiverSession.SocketErrorRule | AudioReciever.java:208-214 | whichever step raises a SocketException (a failing bind, a failing `receive` on the open socket, or the scheduled close), it is logged as unexpected only while `receiving` is set and as a completed shutdown only once it is cleared |
| ReceiverSession.UnexpectedWhileStreaming | AudioReciever.java:188-216 | while the worker waits in `receive` with the flag set, a SocketException is logged as unexpected and any other exception as critical; with the flag cleared a SocketException is a completed shutdown; the worker ends either way |
| ReceiverSession.StopWhileWaiting | AudioReciever.java:208-247 | a scheduled close that runs while the worker waits in `receive` after Stop ends it as a completed shutdown |
| ReceiverSession.StopRule | AudioReciever.java:238-254 | `stopReceiving` always clears the flag; with `socket` null it resets the buttons itself, otherwise it schedules one close and leaves the buttons |
| ReceiverSession.FrameRule | AudioReciever.java:187-203 | each pcm byte pair is the low and high byte of a decoded ulaw byte; each ulaw byte is the datagram's byte or the stale byte; the frame plays exactly when its sleep does not throw |
| ReceiverSession.CloseAfterFinally | AudioReciever.java:217-247 | Start, bind, line, Stop, loop test and then the scheduled close: one graceful exit, and the close throws on a null `socket` |
| ReceiverSession.StopBeforeBind | AudioReciever.java:158-253 | Start then Stop before the bind leaves Start enabled while the first worker is still binding |
| ReceiverSession.StoppedAtLoopTest | AudioReciever.java:187-233 | Start, bind, line, Stop and the loop test end the worker gracefully with one close still queued |
| ReceiverSession.FrozenUntilClose | AudioReciever.java:230-247 | once the worker has ended with a close queued, no event but that close changes anything, since a Start click waits behind it in the event queue |
| ReceiverSession.CloseBeforeRestart | AudioReciever.java:158-247 | a restart attempted while Stop's close is queued cannot let that close reach the next worker's socket: the close throws on the null `socket` first |
| ReceiverSession.LoopStartsOnTime | AudioReciever.java:184 | entering the loop sets the deadline to the first clock reading, the deadline after no frames |
| ReceiverSession.StepKeepsDeadline | AudioReciever.java:187-203 | within the loop every step keeps `nextPlay` at t0 + k·40 ms (wrapped to a `long`), k the frames played since the loop began |
| ReceiverSession.RunKeepsDeadline | AudioReciever.java:184-204 | over any run that stays in the loop, `nextPlay` stays at t0 + k·40 ms for the k frames played |
| ReceiverSession.AudioReceiver.constructor | AudioReciever.java:73-75 | the window as built |
| ReceiverSession.AudioReceiver.StartReceiving | AudioReciever.java:158-164 | `startReceiving` sets the flag, disables Start, enables Stop and launches the worker |
| ReceiverSession.AudioReceiver.StopReceiving | AudioReciever.java:238-254 | `stopReceiving` clears the flag and either schedules a close or resets the buttons |
| ReceiverSession.AudioReceiver.Finish | AudioReciever.java:217-234 | the `finally` block closes an open socket, clears `socket` and the flag, resets the buttons and records the exit |
| ReceiverSession.AudioReceiver.BindSocket | AudioReciever.java:169-216 | parsing and binding: the socket is stored, or the worker ends as a critical or a socket error |
| ReceiverSession.AudioReceiver.SetUpLine | AudioReciever.java:172-184 | the timeout, the speaker line, fresh zeroed buffers and the first deadline, or the worker ends |
| ReceiverSession.AudioReceiver.TestLoop | AudioReciever.java:187-206 | a cleared flag ends the loop gracefully; a closed socket makes `receive` fail; otherwise the worker waits |
| ReceiverSession.AudioReceiver.ReceiveDatagram | AudioReciever.java:188-203 | one frame: receive, decode, pace and play |
| ReceiverSession.AudioReceiver.ReceiveFailed | AudioReciever.java:188-234 | a `receive` that throws runs the matching catch block and then the `finally` block, as `ReceiveErrorStep` |
| ReceiverSession.AudioReceiver.ReceiveAndDecode | AudioReciever.java:188-195 | the datagram lands in the µ-law buffer and all of it is decoded in place into the PCM buffer |
| ReceiverSession.AudioReceiver.PaceAndPlay | AudioReciever.java:197-203 | a sleep that would throw ends the worker; otherwise the deadline advances and the PCM frame is played |
| ReceiverSession.AudioReceiver.RunScheduledClose | AudioReciever.java:242-247 | the scheduled close fails on a null `socket`, ends a waiting worker with a socket error, or closes the socket |

## Left out

- Swing construction and styling, the helpers that build labels, text fields and buttons, `log`, and `main`. None of them has logic the sessions depend on.
- The audio lines are foreign I/O: `mic.read`, `mic.start`, `mic.stop`, `speakers.write`, `drain` and `close`.
  - A read is modelled as the bytes it puts at the front of the buffer (at most 640).
  - A write is modelled as appending the frame to `played`.
  - The speaker line's drain and close in the receiver's `finally` are not modelled.
- The sockets' traffic is modelled as values. `socket.send` becomes the list of datagram payloads plus a flag for an IOException. `receive` becomes an event: either the datagram's bytes, or a failure that tells a SocketException from any other exception.
- `Integer.parseInt`, `InetAddress.getByName`, `new DatagramSocket` and `AudioSystem` calls are library code. They are modelled by their outcomes, as the `Setup`, `Bind` and `Line` alternatives. The receiver's `setSoTimeout(0)` is folded into the line step. It fails only on a socket a scheduled close has already closed.
- `System.nanoTime()` is an input: the `now` of each datagram and the `t0` of the line step. `Thread.sleep` is returned as its argument; no time passes. An InterruptedException is not modelled.
- Threads, the `AtomicBoolean` flags and memory visibility are not modelled. Each click and each worker step is one atomic event, and interleavings are event sequences.
  - The sender catch block's `invokeLater` reset runs at once.
  - The receiver `finally`'s `invokeLater` reset of the buttons runs at once. The event queue is first in, first out. Stop tests `socket` (AudioReciever.java:242) and then queues the close (AudioReciever.java:243); the worker's `finally` may clear `socket` and queue its reset between those two lines, so the reset can sit in the queue before the close. Even then the reset is dispatched only after Stop's handler has returned, and by then the close is queued, so a Start click, which needs the reset, is dispatched only after every close queued before it has run, and `ReceiverSession.Enabled` does not enable StartClicked while one is queued (`ReceiverSession.FrozenUntilClose`). A Stop click dispatched between the `finally` and its reset is not modelled; it would find `socket` null and only reset the buttons again.
  - The close scheduled by `stopReceiving` is a deferred event of its own, because when it runs matters.
  - A SocketException's classification reads `receiving` at the step that raises it.
- ReceiverSession.AudioReceiver.StartReceiving: requires that no earlier worker is alive, a single-worker model, and that no close is queued, which the event queue's order guarantees (see above). The source allows a second Start after a Stop that found `socket` null during the bind. `ReceiverSession.StopBeforeBind` shows how that state is reached, but two workers at once are not modelled.
- ReceiverSession.Start: requires no live worker and no queued close, for the same reasons. `ReceiverSession.Enabled` likewise does not enable StartClicked while a worker is alive.
- ReceiverSession.AudioReceiver.Valid: states only the buffer sizes. The session invariant `ReceiverSession.Inv` is proved of the machine the class follows (the transitions' contracts and `ReceiverSession.RunKeepsInv`), not carried by the class.
- The sender's pass takes `bytesRead` to be the length of the read. A negative return cannot happen here and is not modelled; it would send nothing, as a read of nothing does.
