# PMS5003 frame decoder in Dafny

This project models the PMS5003 particulate-matter sensor driver of the
air-monitoring firmware. The driver reads the sensor's 32-byte frame from a
serial port in four steps:

1. It synchronises on the start bytes 0x42 0x4D.
2. It assembles the rest of the frame from short reads.
3. It checks the frame. In this firmware the check is a stub that accepts every frame.
4. It decodes PM1.0, PM2.5 and PM10 from the big-endian 16-bit fields at offsets 10, 12 and 14.

The serial port is a scripted byte source (module `Uart`). A script is a
finite sequence of answers. Each answer is either a read error or a chunk of
bytes, and the chunk may be empty. A read of `n` bytes is served from the
head of the script. A chunk longer than `n` is split, and its remainder stays
queued. A read that finds the script empty reports `Exhausted`: the real
loops never end, and the model needs an outcome of its own for that case.

Module `Pms5003` gives each step twice, in two forms:

- as a function over the script: `Sync`, `Assemble`, `Decode`, `ParseData`;
- as the imperative method of class `Pms5003` that the firmware runs:
  `SyncToStartBytes`, `AssembleFrame`, `ReadData`.

Each method writes into a real `array<byte>` through `Uart.ReadData`. Its
post-condition ties its result, its new script and the buffer contents to the
function. `ReadData` takes the frame check as a parameter, and the firmware's
check is `VerifyChecksum`. Module `Pms5003Properties` proves what the driver
guarantees, stated over those functions. `Bits` models `(hi << 8) | lo` on
naturals.

Two remarks on what the code does:

- **Checksum.** The Plantower PMS5003 data sheet puts a check code in the
  last two bytes of the frame: the 16-bit sum of the first 30 bytes. The
  code bypasses it and accepts every frame (`rewritepms5003.cpp:108-112`).
- **Second start byte.** After a 0x42, the code consumes the next byte
  whatever it is (`rewritepms5003.cpp:99-105`). A decoder that re-tested a
  rejected second byte as a possible first start byte would keep the frame
  in the stream `42 42 4D ...`; this one does not.

`DoubledStartByteLosesFrame` shows what the second point costs: with
blocking, error-free reads, the stream `42 42 4D` followed by bytes without
0x42 gives no reading at all. An empty read between the two 0x42 ends the
attempt early, so the second 0x42 is then tested afresh and the frame is
kept (`EmptyReadRetestsStartByte`).

## Model

| member | source | states |
|---|---|---|
| Uart.Serve | rewritepms5003.cpp:29-31 | a read returns -1 exactly on an error answer, otherwise the byte count, which never exceeds the request; the bytes returned followed by the bytes left are the bytes the script held, so no byte is lost or reordered |
| Uart.Stored | rewritepms5003.cpp:68 | storing a chunk at an offset changes only the cells it covers, which then hold the chunk |
| Uart.Uart.ReadData | rewritepms5003.cpp:29-31 | `read(fd, buffer + offset, size)`: the result and the new script are those `Serve` gives, and the buffer changes only at the cells the bytes went to |
| Uart.Uart.constructor | rewritepms5003.cpp:15-21 | an opened port whose future answers are the given script |
| Bits.BitOrZero | rewritepms5003.cpp:115 | or-ing with zero leaves a value unchanged |
| Bits.ShiftLeft | rewritepms5003.cpp:115-117 | `x << k` on naturals, one bit at a time, multiplies `x` by 2^k |
| Bits.BitOr | rewritepms5003.cpp:115-117 | bitwise or, bit by bit: the result is at least each operand and at most their sum |
| Bits.BitOrDisjoint | rewritepms5003.cpp:115-117 | when the low operand fits below bit `k`, `(a << k)` or-ed with `b` equals `a * 2^k + b` |
| Pms5003.SecondStartByte | rewritepms5003.cpp:99-105 | the second half of synchronisation takes at most one byte and succeeds exactly when it took 0x4D; what it took and what is left make up the stream it started from |
| Pms5003.Sync | rewritepms5003.cpp:87-106 | one synchronisation attempt takes at most two stream bytes, loses none, and shortens the script unless the script has run out |
| Pms5003.SyncConsumption | rewritepms5003.cpp:95-105 | an attempt succeeds exactly when the bytes it took are 0x42 0x4D; a second byte is taken only after a 0x42; a first byte other than 0x42 is the only byte taken |
| Pms5003.Assemble | rewritepms5003.cpp:66-73 | assembly ends `Filled` exactly when 30 bytes follow the start bytes, never holds more, and holds exactly the bytes it took from the stream |
| Pms5003.StoredKeepsFrame | rewritepms5003.cpp:68-72 | a chunk stored at `bytesRead` leaves `buffer[0..2]` alone and extends `buffer[2..bytesRead]` by the chunk |
| Pms5003.VerifyChecksum | rewritepms5003.cpp:108-112 | the bypassed check accepts every frame |
| Pms5003.BigEndian16 | rewritepms5003.cpp:115-117 | `hi << 8` or-ed with `lo` is `hi * 256 + lo` and lies in [0, 65536) |
| Pms5003.ParseData | rewritepms5003.cpp:114-117 | the three values are the big-endian 16-bit fields at offsets 10, 12 and 14, each in [0, 65536) |
| Pms5003.Decode | rewritepms5003.cpp:57-82 | the whole of `readData` over a script, with the frame check as a parameter; it never grows the script |
| Pms5003.Pms5003.constructor | rewritepms5003.cpp:55 | a driver bound to the given port, with its own 32-byte buffer |
| Pms5003.Pms5003.SyncToStartBytes | rewritepms5003.cpp:87-106 | the method returns what `Sync` gives and leaves the port where `Sync` leaves the script |
| Pms5003.Pms5003.AssembleFrame | rewritepms5003.cpp:66-73 | the loop keeps 2 <= bytesRead <= 32 and the bytes in `buffer[2..bytesRead]`; it ends as `Assemble` does, `buffer[0..2]` is untouched, and a filled buffer holds exactly the bytes `Assemble` took |
| Pms5003.Pms5003.ReadData | rewritepms5003.cpp:57-82 | the method ends as `Decode` does and leaves the port where `Decode` leaves the script; a decoded outcome comes from a buffer the check accepted and is that buffer's decoding |
| Pms5003Properties.SyncReadFailureIsTransient | rewritepms5003.cpp:89-103 | a read error or an empty read on the first or the second byte ends the attempt with `Retry`, never with a failure |
| Pms5003Properties.ReadFailureDuringSyncIsSkipped | rewritepms5003.cpp:89-103 | a read error or an empty read on the first byte costs only that answer; one on the second byte, after a lone 0x42, costs only those two answers; decoding then goes on with the rest of the script |
| Pms5003Properties.BlockingServe | rewritepms5003.cpp:44-46 | with blocking, error-free reads a read returns at least one byte, those bytes are the next bytes of the stream, and the reads left still block |
| Pms5003Properties.BlockingOneByte | rewritepms5003.cpp:89 | with blocking, error-free reads a one-byte read returns exactly the next byte of the stream |
| Pms5003Properties.BlockingSync | rewritepms5003.cpp:89-105 | with blocking, error-free reads an attempt takes exactly one byte, or two when the first is 0x42 |
| Pms5003Properties.SecondByteNotRetested | rewritepms5003.cpp:99-105 | with blocking, error-free reads, after 0x42 a second byte other than 0x4D is consumed, even when it is 0x42 itself |
| Pms5003Properties.NoStartByteNoReading | rewritepms5003.cpp:95-97 | a stream without 0x42 never yields a reading |
| Pms5003Properties.DoubledStartByteLosesFrame | rewritepms5003.cpp:99-105 | with blocking, error-free reads, `42 42 4D` followed by bytes without 0x42 yields no reading, however the stream is cut into non-empty reads |
| Pms5003Properties.EmptyReadRetestsStartByte | rewritepms5003.cpp:89-103 | when the read after the first 0x42 comes back empty, the same stream `42 42 4D` followed by an accepted frame is decoded to that frame |
| Pms5003Properties.BlockingDelivers | rewritepms5003.cpp:44-46 | with blocking, error-free reads, a script that holds `k` more stream bytes delivers them |
| Pms5003Properties.AssembleFillsIffDelivered | rewritepms5003.cpp:67-73 | however the stream is cut into reads, including zero-length ones, assembly fills the buffer exactly when the missing bytes arrive before an error |
| Pms5003Properties.AssembledBytesAreNextInStream | rewritepms5003.cpp:67-73 | a filled buffer holds the next 30 stream bytes, whatever the chunking |
| Pms5003Properties.AssembleFailsOnlyOnReadError | rewritepms5003.cpp:68-71 | assembly ends on a read error exactly when the script gives one before the missing bytes are in |
| Pms5003Properties.BlockingAssemble | rewritepms5003.cpp:67-73 | with blocking, error-free reads, the reads left after assembly still block |
| Pms5003Properties.FrameAtStartAssembles | rewritepms5003.cpp:61-73 | with blocking, error-free reads, a stream that begins with 0x42 0x4D and 30 more bytes synchronises at once, assembles exactly those 30 bytes, and leaves a blocking script holding the rest of the stream |
| Pms5003Properties.DecodedFromAcceptedFrame | rewritepms5003.cpp:57-82 | every reading is the decoding of a frame that the check accepted and whose 30 bytes follow a 0x42 0x4D in the stream |
| Pms5003Properties.AcceptedFrameAfterPrefix | rewritepms5003.cpp:61-80 | bytes skipped before an accepted frame do not change which frame it is |
| Pms5003Properties.AssemblyReadErrorIsFatal | rewritepms5003.cpp:69-71 | after a successful synchronisation, a read error that comes before the 30 missing bytes are in ends the call with `SourceFailure` and no reading |
| Pms5003Properties.RejectedFrameRestartsSync | rewritepms5003.cpp:75-80 | with blocking, error-free reads, a frame at the start of the stream that the check rejects is dropped: what follows is decoding from a blocking script holding exactly the bytes after that frame, as a fresh call would |
| Pms5003Properties.FirstAssembledFrameIsDecoded | rewritepms5003.cpp:61-82 | with the bypassed check, after any number of failed synchronisation attempts, the frame assembled after the first successful one is decoded; if its assembly stops on a read error the call fails, and if the script runs out first there is no reading |
| Pms5003Properties.FrameAtStart | rewritepms5003.cpp:57-82 | with blocking, error-free reads, a stream that begins with a frame the check accepts yields that frame's reading, whatever the chunking |
| Pms5003Properties.NoiseByteSkipped | rewritepms5003.cpp:95-97 | with blocking, error-free reads, a leading byte other than 0x42 is dropped and decoding goes on from the next byte |
| Pms5003Properties.FailedPairSkipped | rewritepms5003.cpp:95-105 | with blocking, error-free reads, a leading 0x42 followed by a byte other than 0x4D is dropped with that byte, and decoding goes on after both |
| Pms5003Properties.NoStartByteIsSkippable | rewritepms5003.cpp:95-97 | noise without 0x42 is skippable, one byte per failed attempt |
| Pms5003Properties.SkippableBoundary | rewritepms5003.cpp:95-105 | `42 00` and `42 42` are skippable noise; a lone 0x42 is not |
| Pms5003Properties.FrameFoundAfterNoise | rewritepms5003.cpp:61-105 | with blocking, error-free reads, leading noise made of whole failed attempts (a byte other than 0x42, or 0x42 and a byte other than 0x4D), in non-empty chunks of any size, does not hide the frame that follows it |
| Pms5003Properties.ExampleFrame | rewritepms5003.cpp:57-117 | a frame with PM1.0 = 5, PM2.5 = 10 and PM10 = 20, sent in one piece, decodes to exactly those values |
| Pms5003Properties.ExampleFrameFields | rewritepms5003.cpp:114-117 | the example frame's fields are 5, 10 and 20 |
| Pms5003Properties.ParseReadsOnlyFieldBytes | rewritepms5003.cpp:114-117 | the readings depend on bytes 10 to 15 only |
| Pms5003Properties.StaleHeadIsIgnored | rewritepms5003.cpp:88-89 | the two never-written cells `buffer[0..2]` cannot change a reading |

## Left out

- The `UART` constructor, `configureUART` and the destructor (`rewritepms5003.cpp:13-51`) are POSIX I/O plumbing. Only their effect matters, and it is modelled in two places:
  - the script stands for the opened port;
  - `Blocking` states blocking and error-free reads as a precondition of the lemmas that need it. VMIN = 1 gives the first half; the second is an assumption of those lemmas.
- The 100 ms and 1 s sleeps are timing only, so they are left out.
- The diagnostic and result output on `std::cout` and `std::cerr` has no effect on the decoded values, so it is left out.
- `main` (`rewritepms5003.cpp:127-144`) is a process loop.
- app.py is a separate HTTP service with its own one-shot decoding, so it is not part of this model.
- The out-parameters `pm1`, `pm25` and `pm10` are returned as a `Reading` inside an `Outcome`. The exception thrown on a read error during assembly is the outcome `SourceFailure`.
- `Exhausted` and `ScriptExhausted` exist only because the script is finite: the real loops wait for more bytes forever.
- The C++ frame buffer is an uninitialised local array. The model makes it the driver's own 32-byte array. Its first two cells are never written and may hold anything, and every contract holds whatever they hold.
- Integer widths: every value is a byte or lies below 2^16, so `int`, `size_t` and `ssize_t` cannot overflow here.
- The data sheet's sum-of-bytes check code is not in the code, and it is not modelled. `ReadData` and `Decode` take the check as a parameter, so one can be supplied.
- DoubledStartByteLosesFrame: holds only under blocking, error-free reads. When the read right after the first 0x42 comes back empty, the second 0x42 is re-tested and the frame is kept, as `EmptyReadRetestsStartByte` proves.
- RejectedFrameRestartsSync: stated for a rejected frame at the start of a stream with blocking, error-free reads; for any other script the restart is `Decode`'s own definition and is not stated again as a lemma.
