# air-reader: frame synchroniser and field decoder

A Dafny model of the core of `air-reader`, a program that polls a multi-gas
and particulate sensor over a serial line. The sensor answers with 24-byte
frames that start with the magic bytes `0x42 0x4D` ("BM"). The model covers
the two pieces of `src/main.rs` that carry the protocol logic:

- the **frame synchroniser**: the cursor `cur` and the buffer `buf: [u8; 24]`
  that live across serial reads, and the per-byte state machine of the read
  loop (skip until `0x42`, require `0x4D` next or reset, store bytes, emit the
  buffer when the cursor reaches 23 and reset);
- the **field decoder** `process_bytes`: four `u16` counts `hi * 0xff + lo`
  (pm25, tvoc, hcho, co2) and two tenths fields `(hi * 256 + lo) / 10`
  (temperature, humidity) read at fixed offsets.

Files:

- `wire.dfy` (module `Wire`): `Byte`, `U16`, the frame length and the header bytes.
- `field_decoder.dfy` (module `FieldDecoder`): `Record`, `Decode`, and an
  encoder used as the decoder's partner for a round-trip proof.
- `sync_spec.dfy` (module `SyncSpec`): the synchroniser as a pure state
  machine (`Step` for one byte, `Run` for a sequence), a reference parser
  `Frames` over a whole stream, and the lemmas that relate them.
- `frame_sync.dfy` (module `FrameSync`): class `Synchronizer` with the
  `array` buffer and the `cur` field, and `Feed`/`FeedChunk` methods proved
  against `Step`/`Run`.
- `pipeline.dfy` (module `Pipeline`): one read as the main loop handles it
  (feed, then decode each emitted frame), and an end-to-end lemma.

Two behaviours of the code differ from what the protocol would suggest; the
model follows the code:

- The `cur == 23` branch emits the buffer before storing anything, so the
  24th byte of a frame is consumed but never stored and `buf[23]` keeps its
  initial 0 forever. Every emitted frame ends in 0 (`Emitted`, `Inv`).
- A byte that fails the second-header test is discarded even when it is
  `0x42`. In `0x42 0x42 0x4D ...` no frame starts at the second `0x42`
  (`NoOverlappingHeader`): the second `0x42` is dropped as a failed `0x4D`,
  then the `0x4D` is dropped while hunting for `0x42`.

The 0xff weight of the count fields is kept as written; `CountAmbiguous`
shows that it maps two different byte pairs to one value.

## Model

| member | source | states |
|---|---|---|
| `FieldDecoder.Count` | src/main.rs:29-32 | a count field is at most 255*255+255 = 65280, so the `u16` arithmetic never overflows |
| `FieldDecoder.Tenths` | src/main.rs:33-34 | the numerator of temperature and humidity lies in 0..=65535 |
| `FieldDecoder.Decode` | src/main.rs:26-48 | decoding is total on 24 bytes; the record carries the caller's time; every count is at most 65280 and both scaled fields lie in 0.0..=6553.5 |
| `FieldDecoder.DecodeDependsOnlyOnFields` | src/main.rs:29-34 | bytes 0-3, 8, 11 and 18-23 do not influence the record, and decoding one frame at two times differs only in the time stamp |
| `FieldDecoder.DecodeIgnoresLastByte` | src/main.rs:29-34 | replacing byte 23, which the synchroniser never stores, does not change the record |
| `FieldDecoder.SplitCount` | src/main.rs:29-32 | every value in 0..=65280 is the count of some byte pair (inverse of `Count`) |
| `FieldDecoder.CountRange` | src/main.rs:29-32 | the values a count field can take are exactly 0..=65280, both directions |
| `FieldDecoder.CountAmbiguous` | src/main.rs:29-32 | the 0xff weight maps two distinct byte pairs to the same count |
| `FieldDecoder.SplitTenths` | src/main.rs:33-34 | every value in 0..=65535 is the numerator of some byte pair (inverse of `Tenths`) |
| `FieldDecoder.TenthsInjective` | src/main.rs:33-34 | two byte pairs give the same tenths numerator if and only if they are equal |
| `FieldDecoder.Encode` | src/main.rs:26-48 | an in-range reading is laid out as a frame with the magic header at the offsets the decoder reads |
| `FieldDecoder.DecodeEncode` | src/main.rs:29-34 | decoding an encoded reading returns its four counts and its tenths divided by 10 |
| `SyncSpec.Initial` | src/main.rs:82-84 | the initial state (zeroed buffer, cursor 0) satisfies the synchroniser invariant and waits for `0x42` |
| `SyncSpec.Step` | src/main.rs:97-128 | the cursor stays in 0..=23 and only advances by one or returns to 0 (the `% 24` never wraps); at cursor 0 a byte other than `0x42` changes nothing; at cursor 1 a byte other than `0x4D` resets the cursor and is dropped; a frame is emitted exactly when the cursor is 23; a byte is stored only at the old cursor; the invariant is preserved and every emitted frame starts with `0x42 0x4D` and ends in 0 |
| `SyncSpec.Run` | src/main.rs:96-129 | feeding a byte sequence keeps the invariant, every emitted frame is well-shaped, and the number of frames times 24 is at most the bytes fed plus the bytes already accumulated |
| `SyncSpec.RunAppend` | src/main.rs:82-129 | because the cursor and the buffer persist across reads, feeding `a` then `b` gives the same final state and frames as feeding `a + b` |
| `SyncSpec.RunSnoc` | src/main.rs:96-128 | one more byte after a sequence is one more step of the state machine from the state the sequence reached |
| `SyncSpec.FillBody` | src/main.rs:125-128 | past the header, bytes are stored one after another from the cursor on and nothing is emitted before the cursor reaches 23 |
| `SyncSpec.FrameExtraction` | src/main.rs:97-128 | from the waiting state, the 24 bytes of a frame emit exactly one frame, equal to the first 23 stream bytes followed by 0, on the 24th byte, and the cursor is back at 0 |
| `SyncSpec.SplitFrameExtraction` | src/main.rs:96-129 | a frame split over two reads at any point 0..=24 yields the same single frame and ends at cursor 0 |
| `SyncSpec.Frames` | src/main.rs:97-128 | the reference parser over a whole stream returns only well-shaped frames, at most one per 24 stream bytes |
| `SyncSpec.RunMatchesFrames` | src/main.rs:96-129 | from any waiting state, the byte-at-a-time machine emits exactly the frames of the reference parser |
| `SyncSpec.NoHeaderNoFrames` | src/main.rs:97-101 | a stream with no adjacent `0x42, 0x4D` pair contains no frame |
| `SyncSpec.NoHeaderNoEmission` | src/main.rs:96-101 | from the waiting state, a stream with no adjacent `0x42, 0x4D` pair emits nothing, whichever way it is split into reads |
| `SyncSpec.FramesAreWindows` | src/main.rs:97-128 | every frame found starts at a header in the stream and equals the 23 stream bytes from there followed by 0 |
| `SyncSpec.NoOverlappingHeader` | src/main.rs:99-101 | in `0x42 0x42 0x4D ...` no frame starts at the second `0x42`: the three bytes are all discarded |
| `FrameSync.Synchronizer.constructor` | src/main.rs:82-84 | a fresh zeroed 24-byte buffer and cursor 0, in the initial state |
| `FrameSync.Synchronizer.Feed` | src/main.rs:97-128 | updates the buffer in place and returns the frame exactly as `Step` specifies, keeping the invariant |
| `FrameSync.Synchronizer.FeedChunk` | src/main.rs:96-129 | processes the bytes of one read in order; the new state and the frames returned are those of `Run` |
| `Pipeline.DecodeAll` | src/main.rs:103 | one record per emitted frame, in order, each the decoding of its frame |
| `Pipeline.ProcessRead` | src/main.rs:95-129 | one read: the synchroniser moves to the state `Run` gives and the records returned are the decodings of the emitted frames |
| `Pipeline.SplitFrameDecodes` | src/main.rs:96-129 | an encoded reading split over two reads at any point yields exactly one record holding that reading, and the synchroniser waits for the next header |

## Left out

- Opening and configuring the serial port, writing the 7-byte command, and the `read` call with its timeout and error arms (src/main.rs:69-77, 92-95, 130-131): foreign I/O. A read that times out or fails feeds no bytes, which is `FeedChunk` on an empty sequence.
- Creating the SQLite table and inserting one row per record with `.unwrap()` (src/main.rs:51-67, 104-123): foreign library calls. The records are returned instead.
- `Local::now()` (src/main.rs:27): the clock is the `now` parameter, and `Timestamp` is an uninterpreted integer rather than a calendar date-time.
- `println!`, `eprintln!` and `thread::sleep` (src/main.rs:45, 86-89, 131, 134): logging and timing.
- FieldDecoder.Decode: temperature and humidity are exact `real` quotients, not IEEE `f64` results of `/ 10.0`.
- The surrounding endless loop (src/main.rs:91-135) is not modelled as a loop; `ProcessRead` is one of its iterations.
