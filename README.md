# go-realtime-stream: a Dafny model of the telemetry pipeline's core

The Go repository is a small real-time pipeline. A producer synthesises an ECG
waveform and publishes it in batches of float32 samples. A processor runs an
online heart-rate detector over those samples and publishes one rate event per
detected beat. A server batches wave messages on a fixed tick and fans them out,
together with the rate events, to every live WebSocket viewer.

This project models the four pieces of sequential logic in that pipeline and
proves what they promise:

- `heart_rate.dfy` (module `HeartRate`) models the detector of
  `internal/analysis/hr.go`. The pure function `Step` specifies one call to
  `Process`. The class `HRDetector` has Go's five fields, and its `Process`
  method follows the Go branches and is proved equal to `Step`.
- `little_endian.dfy` (module `LittleEndian`) models the wire format: 32-bit
  words written and read little-endian. `Pack` is the producer's and the
  server's encoding and `Words` is the processor's decoding. Both round trips
  are proved.
- `processor.dfy` (module `Processor`) models the subscription handler of
  `cmd/processor/main.go`. `HandleWave` runs the decode loop against a live
  `HRDetector` and is proved equal to `Detect`, a fold of `Step` over the
  decoded samples.
- `producer.dfy` (module `Producer`) models the tick loop of
  `cmd/producer/main.go`. It has a buffer of sample words and a packing loop
  that fills a byte array slot by slot.
- `server.dfy` (module `Server`) models `cmd/server/main.go`. The `Hub` class
  holds the connection set. The `WaveBatcher` class holds the batching loop's
  pending batch and its counters `batchesSent`, `samplesSent` and
  `samplesDropped`.
- `wrappers.dfy` (module `Wrappers`) holds the `Option` type.

The model has the following conventions:

- Sample values are ordered reals for the detector's comparisons.
- On the wire a sample is an opaque 32-bit word (`Word`). `math.Float32bits`
  and `Float32frombits` only reinterpret bits. The processor therefore takes
  the reinterpretation as a parameter `valueOf`.
- Instants are integer nanoseconds. The detector's zero `time.Time` ("no peak
  yet") is `None`.
- The rate is `60_000_000_000 / rr` on integer nanoseconds. This is the
  truncation of `60.0 / rr` with `rr` in seconds.
- Clock readings, JSON decoding and WebSocket write outcomes are inputs:
  - `clock` gives the instant of each sample;
  - `decode` is a partial function from a wave message to its sample word;
  - `writeOk` says whether a write to a connection succeeds.
- The server code decodes each wave message as a JSON object `{"v": …}`. The
  producer, however, publishes raw little-endian batches on the same subject.
  The model follows the server code: one output slot per message, and four
  zero bytes for a message that does not decode.

## Model

| member | source | states |
|---|---|---|
| `LittleEndian.PutUint32At` | cmd/producer/main.go:65 | writing a word at offset k sets exactly bytes [k, k+4) to its little-endian bytes and leaves every other byte unchanged |
| `LittleEndian.Uint32OfPutUint32` | cmd/processor/main.go:46 | reading back the four bytes written for a word gives that word |
| `LittleEndian.PutUint32OfUint32` | cmd/processor/main.go:46 | any four bytes are the encoding of the word they decode to |
| `LittleEndian.Pack` | cmd/producer/main.go:62-66 | the packed buffer of n words is 4·n bytes long |
| `LittleEndian.PackSlots` | cmd/producer/main.go:62-66 | bytes [4i, 4i+4) of the packed buffer are the little-endian encoding of word i |
| `LittleEndian.Words` | cmd/processor/main.go:42-46 | a payload holds len/4 samples, so 1-3 trailing bytes are ignored; sample i is the word at bytes [4i, 4i+4) |
| `LittleEndian.PackSnoc` | cmd/producer/main.go:64-66 | packing one more word appends its four bytes to the packed buffer |
| `LittleEndian.WordsOfPack` | cmd/producer/main.go:62-66 | round trip: decoding a packed buffer the way the processor does gives back exactly the packed words |
| `LittleEndian.PackOfWords` | cmd/processor/main.go:42-47 | round trip the other way: a payload of whole words is the packing of the words decoded from it |
| `HeartRate.Step` | internal/analysis/hr.go:21-48 | a call never changes threshold or refractory; afterwards the detector is initialized and lastValue is the new value; without an emission the returned bpm is 0 |
| `HeartRate.FirstCallNeverEmits` | internal/analysis/hr.go:23-27 | the first call emits nothing; it only sets initialized and records the value |
| `HeartRate.EmitsOnlyOnRisingEdge` | internal/analysis/hr.go:30-39 | an emission happens only on an initialized detector, with lastValue < threshold <= value |
| `HeartRate.PeakOnlyOnRisingEdge` | internal/analysis/hr.go:30-43 | lastPeakTime changes only on a rising edge outside the refractory period, and then becomes ts |
| `HeartRate.RefractoryCrossingIgnored` | internal/analysis/hr.go:32-47 | a rising edge with ts - lastPeakTime <= refractory emits nothing and keeps lastPeakTime |
| `HeartRate.FirstPeakArms` | internal/analysis/hr.go:32-42 | the first qualifying peak, with no previous peak, records lastPeakTime := ts and emits nothing |
| `HeartRate.LaterPeakEmits` | internal/analysis/hr.go:35-39 | a later qualifying peak emits 60 s / rr with rr = ts - lastPeakTime, and sets lastPeakTime := ts and lastValue := value |
| `HeartRate.EmittedBpmInRange` | internal/analysis/hr.go:15-36 | with a refractory period of at least 200 ms, every emitted bpm satisfies 0 <= bpm < 300 |
| `HeartRate.HalfSecondBeatsGive120` | internal/analysis/hr.go:13-39 | on a new detector, upward crossings 500 ms apart emit nothing on the first crossing and 120 on the second |
| `HeartRate.HRDetector.constructor` | internal/analysis/hr.go:13-18 | a new detector has threshold 0.6, a refractory period of 200 ms, no last peak and is not initialized |
| `HeartRate.HRDetector.Process` | internal/analysis/hr.go:21-48 | the in-place update of the five fields and the returned (bpm, ok) are exactly Step of the old state |
| `Processor.DetectKeepsConfiguration` | cmd/processor/main.go:44-51 | feeding samples never changes threshold or refractory, and after at least one sample the detector is initialized |
| `Processor.DetectPublishesRates` | cmd/processor/main.go:51-60 | at most one message per sample, each on the output subject, each with 0 <= HR < 300 for the default detector |
| `Processor.DetectSnoc` | cmd/processor/main.go:51-60 | one more sample at the end of a run is one more Process call, publishing a message exactly when that call returns ok |
| `Processor.DetectConcat` | cmd/processor/main.go:38-40 | the one detector carries its state across messages: two payloads handled in turn give the same state and messages as their samples handled in one run |
| `Processor.FirstSamplePublishesNothing` | cmd/processor/main.go:51 | the first sample a new detector sees publishes nothing |
| `Processor.HandleWave` | cmd/processor/main.go:40-64 | Process is called exactly once per decoded word, in index order, and one ParamMsg{subject, ts, bpm} is published exactly for the calls that return ok; the detector ends in the state of that run |
| `Producer.PackSamples` | cmd/producer/main.go:62-66 | the byte buffer filled slot by slot equals Pack of the buffered samples |
| `Producer.ProducerLoop.constructor` | cmd/producer/main.go:49 | the loop starts with an empty buffer and the configured batch size |
| `Producer.ProducerLoop.Tick` | cmd/producer/main.go:57-70 | each tick appends exactly one sample; when the buffer reaches the batch size it is published as Pack of its samples and cleared; otherwise nothing is published; between ticks the buffer stays shorter than the batch; with batch >= 1 every published message holds exactly batch samples |
| `Server.Hub.constructor` | cmd/server/main.go:33-35 | a new Hub has no connections |
| `Server.Hub.Add` | cmd/server/main.go:37-41 | the connection becomes a member and all other memberships are unchanged |
| `Server.Hub.Remove` | cmd/server/main.go:43-47 | the connection stops being a member and all others are unchanged; removing an absent connection changes nothing, so Remove is idempotent |
| `Server.Hub.Snapshot` | cmd/server/main.go:49-57 | returns every current member exactly once (no duplicates, same count), in some order, and does not change the set |
| `Server.Hub.Deliver` | cmd/server/main.go:61-67 | exactly one write per snapshot entry, in snapshot order, each carrying the payload and frame kind; exactly the snapshot entries whose write fails are removed |
| `Server.Hub.Broadcast` | cmd/server/main.go:59-68 | every member at the time of the call gets exactly one write; afterwards the members are those whose write succeeded |
| `Server.Hub.BroadcastText` | cmd/server/main.go:59-68 | as Broadcast, with every write a text frame carrying the payload |
| `Server.Hub.BroadcastBinary` | cmd/server/main.go:70-79 | as Broadcast, with every write a binary frame carrying the payload |
| `Server.AddDuringBroadcast` | cmd/server/main.go:59-68 | a connection added between the snapshot and the writes receives nothing from that broadcast and stays registered; every snapshot member still gets exactly one write |
| `Server.EvictedNotRetried` | cmd/server/main.go:70-79 | a connection whose write fails in one broadcast is not written to by the next one |
| `Server.PackedSlots` | cmd/server/main.go:151-161 | a packed batch is 4·len(batch) bytes, and slot i holds the little-endian bits of message i's decoded sample, or four zero bytes if decoding failed |
| `Server.PackBatch` | cmd/server/main.go:151-161 | the zero-initialised buffer, filled only for messages that decode, equals Pack of the decoded words with 0 for failures |
| `Server.WaveBatcher.constructor` | cmd/server/main.go:107-125 | the loop starts with an empty batch and all three counters at zero |
| `Server.WaveBatcher.Append` | cmd/server/main.go:134-141 | the message is appended; the batch overflows exactly when its new length reaches maxBatch, and then samplesDropped grows by exactly that length and the batch is cleared; the sent counters do not change; afterwards the batch is shorter than maxBatch and every message taken is pending, sent or dropped |
| `Server.WaveBatcher.Drain` | cmd/server/main.go:129-142 | messages are taken in order until none remain or one overflows the batch; without overflow all are appended; on overflow exactly the messages up to the overflowing one are taken and counted as dropped together with the old batch; the batch stays shorter than maxBatch |
| `Server.WaveBatcher.Tick` | cmd/server/main.go:144-171 | an empty batch broadcasts nothing and changes no counter; otherwise Pack of the decoded batch (zeros for failed decodes), shorter than 4·maxBatch, is broadcast once as a binary frame to every member, failed connections are evicted, batchesSent grows by 1 and samplesSent by len(batch), failed decodes included, and the batch is cleared |
| `Server.FillThenTick` | cmd/server/main.go:129-171 | fewer than maxBatch messages on an empty batch are sent by the next tick as one batch of exactly that many samples, and the drop counter is unchanged |
| `Server.OverflowThenTick` | cmd/server/main.go:129-148 | maxBatch messages on an empty batch are all counted as dropped, and the following tick broadcasts nothing and changes no other counter |

## Left out

- The ECG waveform synthesis in `internal/signal/ecg.go` is not part of this model. It is floating-point numerics, so the producer's `Tick` takes the next sample as a parameter.
- The NATS wrapper in `internal/stream/nats.go` is not part of this model. Publish, subscribe and `NextMsg` polling are also left out: the messages a drain finds ready are a parameter, and a publish is a returned value.
- `time.Ticker` scheduling, goroutines, shutdown on a signal, flag parsing and logging are left out. A drain and a tick are explicit method calls.
- The Hub's `sync.Mutex` is left out, and so is any concurrent interleaving. Each Hub method is one atomic step. Only the gap between a broadcast's snapshot and its writes is modelled, by `Snapshot` and `Deliver`.
- WebSocket upgrade, `SetWriteDeadline`, `WriteMessage`, `Close`, the `/ws` read loop and the `clientsNow` gauge are left out. A write's outcome comes from the `writeOk` oracle. Closing a failed connection is not modelled apart from its removal.
- `encoding/json` is left out. Unmarshalling a `WaveMsg` is the partial function `decode`, and marshalling a `ParamMsg` is not modelled; `HandleWave` returns the messages as values.
- The `/metrics` text, static file serving and the HTTP server are left out.
- IEEE-754 semantics are left out. Detector values are reals, so NaN and float32 rounding of the 0.6 threshold are not modelled. `int(60.0 / rr)` becomes integer division on nanoseconds, so float64 rounding at exact multiples is ignored.
- Integers are unbounded. The counters do not wrap at 64 bits, and time differences do not saturate as Go's `Time.Sub` does; a missing last peak plays the role of the saturated difference.
- `Processor.HandleWave`: the message timestamp uses the same clock reading as the detector. The source reads `time.Now()` a second time for `ParamMsg.Ts`.
- `HeartRate.HRDetector.Process`: a peak at the zero instant is recorded as `Some(ts)`. In Go, storing the zero `time.Time` would still read as "no peak"; real clocks never return it.
- The unused `okCount` counter in the server's packing loop is not modelled.
- `Producer.ProducerLoop.constructor`: the batch size is a `nat`. In Go a negative `-batch` makes `make` panic at startup, and the model does not represent that failure.
