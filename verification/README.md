# cere2lsl: a Dafny model of the serial frame reader

`cere2lsl` reads the data stream of an ADS1299 EEG front end from a serial
port and forwards every sample, 16 channels wide, to a Lab Streaming Layer
outlet. The device sends one frame after another. Each frame is a STAT_L
status word, eight left-bank channel codes, a STAT_R status word and eight
right-bank channel codes. Every word is 24 bits wide and goes out as three
bytes, most significant byte first.

This project models the reading side of the program as pure functions over
an immutable byte sequence and a read position:

- `Stream`: a byte source. A read past the end stands for `serialGetchar`
  returning -1.
- `Conversion`: `transform`, which sign-extends a 24-bit code into a signed
  reading. This is the integer part of `toVolts`. Its inverse `ToCode` is
  what the device encodes.
- `ChannelReader`: `get_ch`, which reads three bytes and shifts each one in
  below the bits already gathered.
- `FrameDecoder`: `fill_channels`, and so `get_samples`. It reads the left
  bank, checks the raw STAT_R, reads the right bank and checks the raw
  STAT_L of the next frame. It also defines the device's frame encoding and
  the round trip between the two.
- `Synchronizer`: `wait_for_stat_l`. Each round discards one byte, skips up
  to the next 0xC0, and locks when the two bytes after it are zero. It
  comes both as a function and as the two nested loops of cere2lsl.cpp.
- `Session`: the `serialConnection` constructor (zeroed channels, then
  synchronisation) and the main loop. The loop calls `get_samples` once per
  iteration until the exit request arrives or a call throws.

Errors are values. `Io` is a failed read; `UnexpectedMarker(expected, got)`
is a failed sanity check. The exit flag is modelled as a `budget`: the
number of iterations that start before the flag is seen.

The properties proved include:

- the decode/encode round trips for codes, frames and whole streams;
- the converse: whatever the decoder returns is exactly the encoding of the
  frame its sample describes;
- exactly when a call of `get_samples` fails, and with which error;
- that `fill_channels` depends on nothing but its 54 bytes;
- where `wait_for_stat_l` locks, including a concrete stream on which its
  discarded byte makes it miss a real STAT_L;
- that the loop version of `wait_for_stat_l` agrees with the function
  version.

## Model

| member | source | states |
|---|---|---|
| Stream.ReadByte | cere2lsl.cpp:181-185 | a read succeeds exactly when a byte is left, returns that byte and advances by one; otherwise it is the read error |
| Conversion.Transform | cere2lsl.cpp:41-44 | the reading lies in the signed 24-bit range and agrees with the code modulo 2^24, i.e. it is the two's-complement meaning of the low 24 bits |
| Conversion.TransformOnCodes | cere2lsl.cpp:41-44 | codes below 0x800000 read as themselves; codes from 0x800000 on read as the code minus 2^24 |
| Conversion.ShiftPairIsTransform | cere2lsl.cpp:42-44 | on every 24-bit code, `(int)(value << 8) >> 8` with a wrapping 32-bit shift and an arithmetic right shift gives the same reading as `Transform` |
| Conversion.ToCode | cere2lsl.cpp:41-44 | every signed 24-bit reading has a 24-bit code that `transform` maps to it |
| Conversion.TransformInjective | cere2lsl.cpp:41-44 | two distinct 24-bit codes never give the same reading |
| Conversion.CodeRoundTrip | cere2lsl.cpp:41-44 | converting a code and encoding the reading gives the code back |
| Conversion.ReadingRoundTrip | cere2lsl.cpp:42-47 | every reading comes from exactly one code, the one `ToCode` gives |
| Conversion.TransformBoundaries | cere2lsl.cpp:41-44 | 0x000000, 0x000001, 0xFFFFFF, 0x7FFFFF and 0x800000 read as 0, 1, -1, 2^23-1 and -2^23 |
| ChannelReader.ShiftIn | cere2lsl.cpp:180-187 | the read loop succeeds exactly when enough bytes remain; it advances by the count, and the result is the accumulator shifted up by that many bytes plus their big-endian value; a short source is the read error |
| ChannelReader.GetCh | cere2lsl.cpp:177-189 | `get_ch` succeeds exactly when three bytes remain, advances by three, and returns the 24-bit big-endian code of those bytes; otherwise it fails with the read error |
| ChannelReader.ShiftOrIsMulAdd | cere2lsl.cpp:186 | on the 32-bit accumulator, shift-by-8-then-OR equals multiply-by-256-then-add while the bytes gathered fit |
| ChannelReader.EncodeCode | cere2lsl.cpp:177-189 | the device's three bytes for a code are three bytes that `get_ch` reads back as that code |
| ChannelReader.GetChRoundTrip | cere2lsl.cpp:177-189 | a code sent anywhere in the stream is read back unchanged, consuming exactly its three bytes |
| FrameDecoder.FillBank | cere2lsl.cpp:154-157 | the bank loop succeeds exactly when its bytes are present; channel i receives the converted i-th code and every other channel is untouched |
| FrameDecoder.CheckMarker | cere2lsl.cpp:159-163 | a sanity check passes exactly when the raw code equals the marker; a short source is the read error, a wrong code is reported together with the code read |
| FrameDecoder.FillLeft | cere2lsl.cpp:154-163 | the left bank lands in channels 0..7, then STAT_R must follow; its error cases |
| FrameDecoder.FillRight | cere2lsl.cpp:165-174 | the right bank lands in channels 8..15, channels 0..7 are kept, then STAT_L must follow; its error cases |
| FrameDecoder.StatRFailureAfterHalf | cere2lsl.cpp:154-163 | a wrong STAT_R is reported with the code read, and the outcome is fixed by the first 27 bytes: the right bank is never read |
| FrameDecoder.FillChannels | cere2lsl.cpp:150-175 | a call succeeds exactly when 54 bytes are present with STAT_R at offset 24 and STAT_L at offset 51; then all 16 channels hold the converted codes and the position moves by 54; otherwise the error is the first failure met in reading order |
| FrameDecoder.EncodeFrame | cere2lsl.cpp:150-175 | the device's 54 bytes for a frame hold the left bank, STAT_R, the right bank and STAT_L where `fill_channels` expects them |
| FrameDecoder.FrameOf | cere2lsl.cpp:150-175 | every sample in the signed range describes a well-formed frame whose codes convert back to it |
| FrameDecoder.FrameDecodes | cere2lsl.cpp:150-175 | a well-formed frame at the position decodes to its readings whatever the channels held before, and the position moves by 54 |
| FrameDecoder.FrameRoundTrip | cere2lsl.cpp:150-175 | a frame sent anywhere in the stream decodes to its converted codes |
| FrameDecoder.DecodedFrameAt | cere2lsl.cpp:150-175 | when a call succeeds, the frame its sample describes sits at the position |
| FrameDecoder.FrameAtIsEncoding | cere2lsl.cpp:150-175 | the bytes under a frame's codes are exactly the frame's encoding |
| FrameDecoder.DecodedFrameIsEncoding | cere2lsl.cpp:150-175 | when a call succeeds, the 54 bytes consumed are exactly the encoding of the frame its sample describes |
| FrameDecoder.FillChannelsLocal | cere2lsl.cpp:150-175 | a call depends only on its 54 bytes: cutting them out of the stream and changing the previous channels alters neither outcome nor sample nor error |
| Synchronizer.ScanHigh | cere2lsl.cpp:194-195 | the scan stops just after the first 0xC0 at or after the position and no earlier; it fails exactly when no 0xC0 is left |
| Synchronizer.SyncRound | cere2lsl.cpp:193-200 | a round ends three bytes after the first 0xC0 beyond the discarded byte; it locks exactly when those two bytes are zero; it fails exactly when no such 0xC0 has two bytes after it |
| Synchronizer.WaitForStatL | cere2lsl.cpp:191-202 | on success the three bytes just consumed are 0xC0 0x00 0x00, i.e. a STAT_L code; running out of bytes is the only failure |
| Synchronizer.LockAtFirstMarker | cere2lsl.cpp:191-202 | when the first 0xC0 after the discarded byte starts 0xC0 0x00 0x00, the first round locks right after it |
| Synchronizer.NearMissSkipsNextByte | cere2lsl.cpp:193-201 | after a near miss the search restarts after the third byte, and the byte there is discarded, so any lock lies beyond it |
| Synchronizer.QuirkMissesAdjacentMarker | cere2lsl.cpp:193-200 | on 00 C0 01 00 C0 00 00 the STAT_L right behind a near miss is not seen and the stream never locks |
| Synchronizer.SyncRoundExtend | cere2lsl.cpp:193-200 | a completed round depends only on the bytes it consumed |
| Synchronizer.WaitForStatLExtend | cere2lsl.cpp:191-202 | a lock found on a prefix of the stream is the lock found on the whole stream |
| Synchronizer.WaitForStatLLoop | cere2lsl.cpp:191-202 | the two nested loops, byte by byte, lock exactly when `WaitForStatL` does and end at the same position |
| Session.Open | cere2lsl.cpp:130-132 | the constructor succeeds exactly when synchronisation does; the channels start as 16 zeros and the port is left exactly where `wait_for_stat_l` returned, right after the STAT_L it locked on |
| Session.GetSamples | cere2lsl.cpp:140-143 | `get_samples` succeeds exactly when a complete, correctly marked frame is at the position; the sample returned holds the converted codes of the left bank in channels 0..7 and of the right bank in 8..15, the position moves by 54, and the error is the frame's first failure |
| Session.Pump | cere2lsl.cpp:222-225 | the loop pushes at most `budget` samples; it stops for the exit request exactly when all `budget` iterations succeeded, and otherwise at the first frame that fails to decode, with that frame's error; each sample advances by 54 bytes, and the connection after the last successful call holds the last sample |
| Session.EncodedFramesAt | cere2lsl.cpp:222-225 | the encoding of a run of frames puts their codes back to back |
| Session.PumpFrames | cere2lsl.cpp:222-225 | frames whose codes sit back to back yield exactly their readings, one per iteration, and the loop stops only for the exit request |
| Session.SampleIsFrame | cere2lsl.cpp:140-143 | a sample `get_samples` returns is the readings of a well-formed frame whose codes sit where the call started |
| Session.PumpedAreFrames | cere2lsl.cpp:222-225 | every sample the loop pushes is the readings of a well-formed frame, the i-th one 54·i bytes after the start |
| Session.StreamRoundTrip | cere2lsl.cpp:222-225 | a run of frames sent anywhere in the stream yields every frame's readings in order, and the loop ends right after them |
| Session.Run | cere2lsl.cpp:219-225 | the program gets as far as the loop exactly when synchronisation succeeds; it pushes at most `budget` samples, 54 bytes apart from the STAT_L it locked on, and stays inside the input; it stops for the exit request exactly when all `budget` iterations succeeded, and otherwise at the first frame that fails to decode, with that frame's error |
| Session.RunSamplesAt | cere2lsl.cpp:219-225 | every sample the program pushes is the readings of a well-formed frame, the i-th one 54·i bytes after the STAT_L it locked on |
| Session.SessionRoundTrip | cere2lsl.cpp:219-225 | after one discarded byte, noise free of 0xC0, a STAT_L and a run of frames, the program locks on that STAT_L and pushes every frame's readings in order |

## Left out

- `toVolts` scaling: the multiplication by 0.536e-6 and the conversion to
  `float` are floating point. The channels hold the integer `transform`
  result, which is exactly representable in a `float`.
- Conversion.Transform: it is defined on the low 24 bits, not through the
  shift pair of line 43. `value << 8` on a 32-bit `int` overflows for codes
  of 0x800000 and above. That shift is undefined in C++11,
  implementation-defined in C++14 and C++17 (GCC wraps), and defined to
  wrap from C++20 on. For the wrapping reading,
  `Conversion.ShiftPairIsTransform` shows that the two agree on every code.
  `ShiftPair` also assumes that `>> 8` on a negative `int` shifts
  arithmetically. That is implementation-defined before C++20 (GCC does so)
  and required from C++20 on. Under C++11 nothing is promised.
- `serialGetchar` on the exit path: line 182 throws on -1 only while the
  exit flag is clear. Reads during shutdown, which OR the -1 into the
  result, are not modelled. In the model every failed read is an error.
- `wait_for_stat_l` at the end of input: it never looks for -1. With
  `char` unsigned, -1 becomes 0xFF, which is never 0xC0, so the program
  spins forever on a dead port. The model reports `Io` when the source runs
  out instead.
- `char` signedness in `wait_for_stat_l`: the comparison with 0xC0 is
  modelled with unsigned `char`, as on the ARM boards that wiringPi targets.
  With a signed `char` the scan would never end.
- The discarded byte: each round of `wait_for_stat_l` reads and drops one
  byte before the scan, even after a near miss. One might expect the search
  to resume at the byte after `dat3`, but line 193 drops that byte first.
  The model follows the code, and `Synchronizer.QuirkMissesAdjacentMarker`
  shows a STAT_L missed this way.
- FrameDecoder.FillChannels: a failing call is modelled by its error
  alone. `fill_channels` has by then overwritten some channels in place and
  consumed 27 or 54 bytes, or every byte left. `Err` carries neither the
  partly written channels nor the position. After the throw, `main` leaves
  the loop and never reads the connection again, so `Session.Pump` keeps the
  connection from before the failing call.
- Session.Pump: its contract gives lengths, positions, the stop reason and
  the failing frame.
  What each sample holds is stated separately, by `Session.PumpedAreFrames`
  and `Session.PumpFrames`.
- The exit flag and the SIGINT handler: the asynchronous flag is replaced
  by `budget`, so the flag is only seen between iterations.
- The 1 ms sleep, the LSL stream info and outlet, and `push_sample`: these
  are I/O. The model keeps the sequence of samples pushed.
- `commandLineOptions`, `wiringPiSetup`, `serialOpen`, `serialFlush` and
  `serialClose`: configuration and device I/O. The input of the model is the
  byte sequence after the flush.
- The `catch` in `main` and the diagnostic `printf`s: a thrown exception
  becomes the `Failed` stop reason with its error value.
