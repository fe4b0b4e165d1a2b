# PSX serial transfer: a Dafny model of the send protocol

`psxserialpy_v001.py` uploads a compiled binary to a PlayStation over a
USB-serial adapter. This project models three pure pieces of that script
and proves their properties:

- **The lock-step send protocol of `transfer_binary`.** The sender writes
  the payload size as a 4-byte big-endian header and waits for the
  acknowledgment byte 0x06. It then writes the payload in chunks of at most
  1024 bytes and waits for one acknowledgment after each. Last, it waits for
  one final acknowledgment. Any other reply, or a read that times out, ends
  the session at that point.
- **The packing step of `calculate_crc32`.** The CRC-32 value is masked to
  32 bits and packed as four big-endian bytes.
- **The COM-port test of `get_valid_com_port`.** The typed line is
  stripped, lower-cased and checked for the prefix `com`.

The serial port is replaced by a *script* of replies, one per `ser.read(1)`.
Each reply is either `Timeout` (the empty read) or `Byte(b)`. Reads past the
end of the script time out. `Protocol.Transfer` is a pure function from
payload and script to a `Session`, which holds:

- the trace of writes and reads, in order;
- the values the `total_sent` counter takes;
- the outcome: `Done(chunkCount)`, `HeaderNotAcked`, `ChunkNotAcked(offset)`,
  `FinalNotAcked`, or `SizeOverflow`. `SizeOverflow` is the `OverflowError`
  that `to_bytes(4, 'big')` raises before anything is written when the size
  needs more than four bytes.

`TransferSpec.Reference` describes the same session in closed form, in
terms of the run of leading acknowledgments. Let `a` be the number of
leading acknowledgments among the at most N + 2 replies the protocol can
read, where N is the number of chunks. Then:

- the header and `Min(a, N)` chunks are written;
- `Min(a + 1, N + 2)` replies are read;
- the first refused reply names the stage that fails.

`TransferSpec.TransferMatchesReference` proves that the protocol function
equals this reference on every input. The properties in `TransferProperties`
are derived from it.

Modules, in dependency order:

| file | module | contents |
|---|---|---|
| wrappers.dfy | Wrappers | `Option`, for results the source refuses |
| bytes.dfy | BigEndian | `byte`, big-endian `ToBytes` / `FromBytes` and their round trip |
| chunking.dfy | Chunking | `NumChunks`, the slice `ChunkAt`, the peeling `Chunks`, and their cover and length lemmas |
| protocol.dfy | Protocol | replies, events, outcomes, sessions, `Transfer` and its chunk loop `SendChunks` |
| transfer_spec.dfy | TransferSpec | the reference session and the proof that `Transfer` meets it |
| properties.dfy | TransferProperties | header, rejection, progress, success and lock-step properties, with worked examples |
| checksum.dfy | Checksum | the 32-bit mask, its agreement with bitwise `&`, and the 4-byte packing |
| com_port.dfy | ComPort | Python's `strip`, ASCII `lower`, and the `com` prefix test |

## Model

| member | source | states |
|---|---|---|
| BigEndian.ToBytes | psxserialpy_v001.py:28 | `to_bytes` succeeds exactly when the value is below 256^width; the result is `width` bytes that decode back to the value |
| BigEndian.EncodeDecode | psxserialpy_v001.py:28 | any byte string decoded big-endian and re-encoded at its own width gives the same bytes |
| BigEndian.EncodingInjective | psxserialpy_v001.py:28 | two sizes with the same header are the same size |
| Chunking.NumChunksBound | psxserialpy_v001.py:41 | `range(0, n, 1024)` yields offset k·1024 exactly when k is below the chunk count, which is the ceiling of n / 1024 |
| Chunking.ChunkAt | psxserialpy_v001.py:41-43 | every chunk the loop slices holds between 1 and 1024 bytes; its length is the rest of the payload, capped at 1024 |
| Chunking.ChunksCover | psxserialpy_v001.py:39-43 | the chunks concatenate back to the payload exactly |
| Chunking.ChunksAreSlices | psxserialpy_v001.py:41-43 | chunk k, peeled off the front one at a time, is the slice `data[k*1024 : k*1024+1024]` |
| Chunking.ChunkLengths | psxserialpy_v001.py:39-43 | every chunk but the last holds 1024 bytes; the last holds 1 to 1024 |
| Protocol.SendChunks | psxserialpy_v001.py:39-64 | the chunk loop ends in success, a refused final acknowledgment, or a refused chunk at a multiple of 1024 inside the payload; success reports every chunk; it records at most one counter value per remaining chunk |
| TransferSpec.TransferMatchesReference | psxserialpy_v001.py:24-66 | for every payload and script, the session equals the reference session determined by the number of leading acknowledgments |
| TransferProperties.TransferOverflow | psxserialpy_v001.py:24-28 | a payload of 2^32 bytes or more fails with no write and no read |
| TransferProperties.HeaderRoundTrip | psxserialpy_v001.py:24-28 | the session fails on the size exactly when the size needs more than four bytes, and then nothing is written; otherwise the first event writes four bytes that decode big-endian to the payload length |
| TransferProperties.HeaderRejected | psxserialpy_v001.py:28-34 | the header fails exactly when the first reply is not 0x06; then the header is the only write and its reply the only read |
| TransferProperties.ChunkRejected | psxserialpy_v001.py:41-51 | chunk k fails at offset k·1024 exactly when the header and chunks 0..k-1 were acknowledged and chunk k was not; then exactly chunks 0..k follow the header and exactly k + 2 replies were read |
| TransferProperties.ProgressCounter | psxserialpy_v001.py:40-54 | after j acknowledged chunks `total_sent` is min(j·1024, size); it is positive, at most the size and strictly increasing; it reaches the size when the loop completes; on a chunk failure it equals the failing offset |
| TransferProperties.SuccessIffAllAcked | psxserialpy_v001.py:32-64 | success exactly when all N + 2 replies are 0x06; then every chunk was written in order, N + 2 replies were read, and the count is N |
| TransferProperties.FinalRejected | psxserialpy_v001.py:59-64 | the final acknowledgment fails exactly when the first N + 1 replies were 0x06 and reply N + 1 is not; it is read only after every chunk was written |
| TransferProperties.LockStepExchange | psxserialpy_v001.py:28-64 | writes and reads alternate strictly, starting with a write; the reads consume the script from the start in order; there is one read per write plus at most one |
| TransferProperties.EmptyPayload | psxserialpy_v001.py:24-64 | an empty payload writes the header 00 00 00 00 and reads its reply; if that is 0x06, the next and last read is the final acknowledgment, with no chunk in between |
| TransferProperties.AllAckedExample | psxserialpy_v001.py:39-66 | 2500 bytes against a receiver that always acknowledges: three chunks of 1024, 1024 and 452 bytes, counter 1024, 2048, 2500, success with 3 chunks |
| TransferProperties.SecondChunkRefusedExample | psxserialpy_v001.py:46-51 | 2500 bytes whose second chunk is answered 0x15: failure at offset 1024, the third chunk never written, counter 1024 |
| Checksum.Mask32IsBitwiseAnd | psxserialpy_v001.py:89 | the modular mask equals `x & 0xFFFFFFFF` computed bit by bit, negative `x` included |
| Checksum.PackU32 | psxserialpy_v001.py:89 | `struct.pack('>I', v)` succeeds exactly for 0 ≤ v < 2^32, giving four bytes that decode to v |
| Checksum.Crc32Bytes | psxserialpy_v001.py:89 | the checksum is always four bytes that decode big-endian to the CRC value mod 2^32 |
| Checksum.Crc32BytesBitwise | psxserialpy_v001.py:89 | the packed bytes decode to the low 32 bits of the CRC value, as the bitwise mask keeps them |
| Checksum.Crc32BytesAgree | psxserialpy_v001.py:89 | two payloads get the same checksum bytes exactly when their CRC values agree mod 2^32 |
| Checksum.Crc32BytesUnsigned | psxserialpy_v001.py:89 | an unsigned 32-bit CRC value passes the mask unchanged and is what the bytes decode to |
| Checksum.CheckValueExample | psxserialpy_v001.py:89 | the standard check value 0xCBF43926 packs as CB F4 39 26 |
| ComPort.TrimStart | psxserialpy_v001.py:113 | `lstrip` returns a suffix whose dropped characters are all whitespace and whose first character is not |
| ComPort.TrimEnd | psxserialpy_v001.py:113 | `rstrip` returns a prefix whose dropped characters are all whitespace and whose last character is not |
| ComPort.StripIdempotent | psxserialpy_v001.py:113 | stripping a stripped line changes nothing; a non-empty stripped line begins and ends with a non-space |
| ComPort.AcceptComPort | psxserialpy_v001.py:112-115 | a line is accepted exactly when the test holds; the accepted value is the stripped line, no longer than the input, and passes the test again |
| ComPort.IsComPortCharacterised | psxserialpy_v001.py:113-114 | the test holds exactly when the three characters after the leading whitespace are c, o, m in either case, whatever follows |
| ComPort.ExampleAccepted | psxserialpy_v001.py:110-115 | `COM3`, the prompt's own example, is accepted unchanged |
| ComPort.ExampleAcceptedPadded | psxserialpy_v001.py:113-115 | `"  com3\n"` is accepted as `com3` |
| ComPort.ExampleDevicePathRefused | psxserialpy_v001.py:113-117 | `/dev/ttyUSB0` is refused |
| ComPort.ExampleShortRefused | psxserialpy_v001.py:113-117 | the empty line and `co m3` are refused |

## Left out

- Serial I/O is not modelled: opening the port, the 115200 baud rate, the 5-second read timeout and closing the port in `finally`. A timed-out read appears only as a `Timeout` reply; a receiver that stops answering is a script that runs out.
- A failure of the serial connection itself (`serial.SerialException`) is not modelled. The source only prints it, and a script cannot produce it.
- `time.sleep` pacing is not modelled: it only delays and never changes what is written or read.
- Printed output is not modelled: the size, the progress line, the success line, and the messages of the exception handlers. The handlers only print, so each failure appears as the session's outcome. `Done.chunkCount` records what the loop completed; the source only prints a success message.
- Reading the file is left out; the payload is an input.
- The CRC-32 computation is `binascii.crc32`, a foreign library call. It enters as a function parameter from bytes to an integer. Only the mask and the packing around it are modelled.
- `get_valid_file_path` is left out: it depends on `os.path.exists` and on interactive input.
- The retry loop of `get_valid_com_port` is left out because it is interactive. `ComPort.AcceptComPort` models one pass of its body: the stripped line, or `None` where the prompt repeats.
- ComPort.Lower: lowers only the ASCII capitals A–Z, while Python's `str.lower` is Unicode-wide. The prefix test is still exact. The only characters that lower to `c`, `o` or `m` are those letters and their ASCII capitals. The one character whose lowering is two characters, U+0130, lowers to `i` plus a combining dot, never to a `c`, `o` or `m`.
