# syncwriter in Dafny

This project models the two functions of `index.js` in the syncwriter package and proves properties about them.

- **`copy(ReadFD, WriteFD, buffer, autoClose, callback)`** (module `BlockCopy`, `block_copy.dfy`) copies between two file descriptors. It works synchronously through one fixed buffer. The read handle is modelled as a fixed byte sequence and the offset `start` where reading begins (0 for a freshly opened file). A read fills a prefix of the caller's buffer with `min(capacity, remaining)` bytes and leaves the rest of the buffer as it was. The destination is the sequence of bytes written to it. `Copy` returns the trace of what it did: reads, callback invocations, writes and closes. Its contract says that trace equals `CopyFrom`, a definition that follows the code's rounds, and, when `start` is a multiple of the buffer's capacity, `CopyOps`, a chunk-by-chunk reference definition. The lemmas about `CopyOps` give the counts, the round trip, the callback discipline and the closes.
- **`streamModifyer(readStream, writeStream, modifyFun)`** (module `StreamBridge`, `stream_bridge.dfy`) forwards each chunk from a readable stream to a writable one. It respects the writable side's backpressure and gives an optional transform a per-chunk stop/resume callback. The model is a pure transition system, `Step`/`Run`, over a trace of host events:
  - `data`;
  - a call of a chunk's control callback;
  - the transform returning;
  - `drain`;
  - `end`.

  The value returned by `writeStream.write` is an oracle boolean (`ack`), carried by each event that may write.

`common.dfy` holds the byte type (`bv8`), `Option` and the concatenation of chunk sequences.

Behaviour the model follows from the code:

- The loop of `copy` always ends with one short read. That read returns `(size - start) % capacity` bytes, possibly 0. From offset 0 a copy therefore makes `size / capacity + 1` reads, not `ceil(size / capacity)`. When the size is a multiple of the capacity, there is no tail write.
- The size of the tail write, `lastOffset`, comes from the size of the whole file (index.js:18-19). `readSync` with a null position reads from the descriptor's current offset (index.js:24, 34). The two agree only when that offset is a multiple of the capacity (`CopyFromLength`, `CopyFromWhole`). Otherwise the tail write is wrong:
  - from offset 3 of a 10-byte file through a 4-byte buffer, the last byte is never written (`StartThreeDropsLastByte`);
  - from offset 2, bytes 6 and 7 are written a second time, from the stale front of the buffer (`StartTwoRewritesStale`); a callback is handed its own image of the previous chunk and edits it again (`StaleTailEditedAgain`).
- The doc comment of `copy` says `autoClose` defaults to true. The code tests it for truthiness, so an omitted `autoClose` closes nothing. The model takes `autoClose` as a boolean.
- The doc comment of `streamModifyer` (index.js:55-58) says to call the callback with `false` to pause and with no argument to resume. The code does the opposite: a truthy argument pauses (index.js:84-88). A falsy call before any stop does nothing (index.js:89-90). `DocumentedProtocolWritesEarly` proves that, following the comment, the callback never pauses the stream; only backpressure does. The chunk is written as soon as the transform returns.
- `isTrigger` is never cleared (index.js:80-105). Every later falsy call therefore resumes the stream and writes the chunk again (`ResumeRepeats`).
- `drain` resumes the read stream even while a transform holds its chunk (index.js:117-122). A write stream emits `drain` only after a `write` returned false. While a chunk is held, such a write can come from a repeated release of an earlier stopped chunk. The `drain` that follows lets a later chunk be written before the held one, so forwarding order is not guaranteed once a transform uses its callback (`DrainLetsLaterChunkOvertake`). Without callback use, chunks are forwarded in order (`ForwardsInOrder`).
- `end` removes only the `data` and `drain` listeners (index.js:123-126). A control callback captured earlier stays live and can still write after `end`. `DetachedIsInert` covers traces without such calls.

Host assumptions, stated by `Step` returning `None`:

- `data` is delivered only while the read stream flows and no listener is running.
- A return needs a running transform.
- A control call needs an existing callback, which exists only when a transform was given.
- `drain` is delivered only when the write stream owes one: a `write` has returned false and no `drain` has been delivered since.
- `drain` and `end` do not interrupt a running listener.

## Model

| member | source | states |
|---|---|---|
| BlockCopy.Copy | index.js:15-47 | From a read handle at offset `start`, the operations performed are exactly `CopyFrom`: the loop over the rest of the source, then a tail write of `size % capacity` bytes from the front of the buffer, then the closes. The destination receives the concatenation of the writes. When `start` is a multiple of the capacity, as for a freshly opened file, the operations are the reference trace `CopyOps` of the rest of the source. The destination then receives the callback's images of its chunks, concatenated, and without a callback it receives the rest byte for byte. |
| BlockCopy.ReadLoop | index.js:21-36 | Reading from the handle's current offset, the loop forwards every full buffer and stops at the first short read. That read returns `remaining % capacity` bytes, which sit at the front of the buffer; the rest of the buffer keeps what the previous round left there. |
| BlockCopy.ChunksFlatten | index.js:34-39 | The chunks of the source, concatenated again, are the source. |
| BlockCopy.ChunksShape | index.js:17-19 | There are `size / capacity` chunks of `capacity` bytes. After them comes one chunk of `size % capacity` bytes exactly when that is non-zero. |
| BlockCopy.CopyWrites | index.js:24-39 | The writes of a copy are the chunks of the source in order, each mapped through the callback. Without a callback, the concatenation of the writes is the source. |
| BlockCopy.CopyCounts | index.js:19-39 | A copy makes `size / capacity` full writes of `capacity` bytes, plus one write of exactly `size % capacity` bytes iff that is non-zero. An empty source gets no write. A copy makes `size / capacity + 1` reads, and the last returns `size % capacity`. |
| BlockCopy.TransferReads | index.js:24 | The loop's reads return `capacity` for each full chunk, then `size % capacity` once. |
| BlockCopy.CopyInvokes | index.js:23-31 | With a callback, it is handed exactly the chunks of the source, in order, tail included. Each invocation is immediately followed by the write of its image, and no write happens without one. Without a callback, nothing is invoked. |
| BlockCopy.CopyCloses | index.js:42-45 | With `autoClose`, the last two operations close the write handle and then the read handle. Without it, no handle is closed. |
| BlockCopy.TenThroughFour | index.js:34-39 | A 10-byte source through a 4-byte buffer gives writes of bytes 0-3, 4-7 and 8-9, and reads returning 4, 4 and 2. |
| BlockCopy.TwelveThroughFour | index.js:34-39 | A 12-byte source through a 4-byte buffer gives three full writes and no tail, and reads returning 4, 4, 4 and 0. |
| BlockCopy.TransferLoop | index.js:24-39 | The rounds of the loop, followed by one write of the last `remaining % capacity` bytes when that is non-zero, are the chunk-by-chunk reference transfer. |
| BlockCopy.LeftoverFront | index.js:24-29 | When the loop ends, the front `remaining % capacity` bytes of the buffer are the last bytes of the source. |
| BlockCopy.AlignedCopy | index.js:17-39 | From an offset that is a multiple of the capacity, `lastOffset` equals what the short read returned, and the copy is the reference trace `CopyOps` of the rest of the source. |
| BlockCopy.LoopLength | index.js:24-36 | The loop writes all the remaining bytes except the last `remaining % capacity`. |
| BlockCopy.CopyFromWrites | index.js:24-39 | The writes of a copy are the loop's writes, then one write of the first `size % capacity` bytes of the buffer (through the callback) iff that is non-zero. |
| BlockCopy.CopyFromLength | index.js:17-39 | From offset `start` the destination receives `(size - start) - (size - start) % capacity + size % capacity` bytes. That is exactly the number of bytes left to read iff `start` is a multiple of the capacity. |
| BlockCopy.CopyFromWhole | index.js:33-39 | Without a callback, the destination receives exactly the rest of the source iff `start` is a multiple of the capacity. |
| BlockCopy.StartThreeDropsLastByte | index.js:18-38 | From offset 3 of a 10-byte source through a 4-byte buffer, the reads return 4 and 3, and the writes are bytes 3-6 and 7-8: byte 9 is never written. |
| BlockCopy.StartTwoRewritesStale | index.js:18-38 | From offset 2 of a 10-byte source through a 4-byte buffer, the reads return 4, 4 and 0, and the writes are bytes 2-5, 6-9 and then 6-7 again. |
| BlockCopy.StaleTailEditedAgain | index.js:18-31 | In that copy with a callback f, the callback is handed bytes 2-5, bytes 6-9, and then the first two bytes of f's image of bytes 6-9. |
| StreamBridge.Write | index.js:70-74 | Delivers the chunk to the write stream. It pauses the read stream iff `write` returns false, and then the write stream owes a `drain`. Nothing else changes. |
| StreamBridge.OnData | index.js:70-116 | Without a transform, the `data` listener is `write`: it writes the chunk, records it as written by the listener, and pauses iff `write` returns false. With a transform, it records the edited chunk, unstopped and unwritten, and starts the transform without writing. |
| StreamBridge.OnReturn | index.js:107-109 | When the transform returns, the chunk is written, and recorded as written by the listener, iff `isTrigger` is still false. If the transform stopped the stream, nothing is written and the pause stands. |
| StreamBridge.ControlCall | index.js:82-105 | The callback returns true iff `stop` differs from `isTrigger`, and a call that returns false changes nothing. The first truthy call pauses and sets `isTrigger` without writing. After that, every falsy call is accepted: it counts one more release, resumes, writes the chunk, and leaves the stream paused iff that write reported backpressure, in which case a `drain` is owed. `isTrigger` is never cleared. |
| StreamBridge.Step | index.js:117-127 | The write stream's record only grows, received chunks keep their bytes, and a stopped chunk stays stopped. `drain` is delivered only when the write stream owes one, and it pays that debt. With the listeners attached it resumes the read stream whatever a transform holds. After `end`, `data` and `drain` change nothing but that debt. `end` detaches the listeners and writes nothing. |
| StreamBridge.StepValid | index.js:70-122 | Every deliverable event keeps the invariant. Every write carries the bytes of the chunk it forwards. Each chunk has been written once per accepted release of its callback, plus once if the listener wrote it. A chunk whose transform never stopped the stream has no releases, and the listener has written it exactly when its transform is no longer running. |
| StreamBridge.RunValid | index.js:76-126 | Every deliverable trace keeps that invariant. |
| StreamBridge.ForwardedOnce | index.js:107-113 | From the start, a chunk whose transform has returned without stopping the stream has been written exactly once. |
| StreamBridge.WrittenPerRelease | index.js:82-109 | From the start, every chunk has been written exactly once per accepted release of its callback, plus once if the listener wrote it. |
| StreamBridge.RunKeepsHeld | index.js:84-109 | A chunk stopped while its transform ran stays stopped and is never written by the listener, whatever events follow. |
| StreamBridge.HeldUntilReleased | index.js:84-109 | A chunk whose transform stops the stream while running is written only by releases of its callback: after any trace, exactly once per release, so never before the first. |
| StreamBridge.RunChunks | index.js:121-126 | The chunks received are the edited chunks of the `data` events before `end`, in order. |
| StreamBridge.RunInOrder | index.js:107-113 | Without control calls, the k-th write forwards the k-th chunk, and every chunk whose transform has returned is written. |
| StreamBridge.ForwardsInOrder | index.js:107-121 | From the start, without control calls and once no transform is running, the write stream has received exactly the edited chunks of the `data` events before `end`, in emission order. Without a transform these are the chunks themselves. |
| StreamBridge.SyncTransformIsPlainWrite | index.js:107-113 | Over one chunk, a transform that never calls its callback ends in the same state as the plain `write` listener fed the edited chunk. |
| StreamBridge.ResumeRepeats | index.js:94-98 | Once a chunk's transform has stopped the stream, n falsy calls of its callback are all accepted. Each writes that chunk once more and counts one more release. Afterwards the read stream is paused iff the last of those writes returned false, and a `drain` is owed iff one of them returned false or one was owed already. |
| StreamBridge.DrainLetsLaterChunkOvertake | index.js:84-122 | Chunk z is stopped and released, and chunk a is stopped. A repeated release of z meets a full write stream, and the `drain` that follows resumes the read stream while a is held. Chunk b then arrives and is written before a is released. The write stream receives z, z, b, then a. |
| StreamBridge.DocumentedProtocolWritesEarly | index.js:84-109 | Calling the callback with false at the start of the transform writes the chunk when the transform returns. The stream pauses only for backpressure. The later no-argument call does nothing. |
| StreamBridge.DetachedIsInert | index.js:123-126 | After `end`, a trace without control calls writes nothing and resumes nothing; the only change is that an owed `drain` may be paid. |
| StreamBridge.InvertTwoChunks | test.js:26-31 | Chunks a and b through the bitwise-inverting transform reach the write stream as the inversions of a and then b. |

## Left out

- The `fs` primitives (`fstatSync`, `readSync`, `writeSync`, `closeSync`) are abstract. The source is a fixed byte sequence read at a cursor, the destination is the sequence of bytes written, and a close is an operation in the trace. Short reads by the operating system, a source that grows during the copy, and a destination written elsewhere than at its end are not modelled.
- Failures of those primitives, and stream `error` events, are not modelled. The code handles none of them and lets them propagate.
- `Buffer` aliasing is not modelled: `buffer.slice` shares memory with the buffer. The `copy` callback is a length-preserving function on the chunk it is handed. The buffer itself is modelled, including the bytes a short read leaves untouched.
- The `streamModifyer` transform's edit is applied to the chunk when the transform is invoked. An asynchronous transform that edits the chunk later, before resuming, is not modelled.
- Node's `EventEmitter` registration, stream buffering, `highWaterMark` and asynchronous timing are not modelled. Events form a sequential trace, and the result of `write` is an oracle.
- StreamBridge.DetachedIsInert: covers only traces without control calls, because a callback captured before `end` can still write afterwards (see above).
- StreamBridge.Step: a write stream owes a `drain` only after a write made by this bridge returned false. Writes to the same write stream from elsewhere, which could also make it emit `drain`, are not modelled, so `DrainLetsLaterChunkOvertake` shows overtaking only through a repeated release.
- `test.js` as a whole is a demonstration script with real file and stream I/O and console output. Only its inverting transform is modelled, in `InvertTwoChunks`.
