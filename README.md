# Mindfield core, modelled in Dafny

Mindfield is an experiment rig. It collects random bits while heart-rate
sensors report heart-rate variability, and it compares the bits produced
during an experiment with bits produced during a baseline. This project
models the four parts of the program that carry real logic:

- **The bit collector** (`rng_collector.py`, modules `Collector` and
  `BoundedDeque`). The collector owns two bounded bit buffers, one for the
  experiment and one for the baseline. Its mode routes each new bit to one
  of them. It keeps an append-only list of event markers. It computes a mean
  and z-score over a recent window, and an effect size between the two
  buffers. `RngCollector` is a class whose methods update these fields.
  Each buffer is a `deque(maxlen=100000)`, specified by `Window`: the last
  `cap` items.
- **The heart-rate manager** (`hrv_manager.py`, module `HeartRate`).
  - Decoding of the Heart Rate Measurement characteristic, as the code reads
    it: flags bit 0 and bit 4, an 8- or 16-bit heart rate, then
    little-endian RR fields in 1/1024 s.
  - The per-device buffers of 120 RR intervals.
  - The coherence score `1 / (1 + RMSSD/50)`, clamped to [0, 1].
  - The FIFO queue of readings and error records, and its drain.
  - The scan filter (case-insensitive name patterns), sorted strongest
    signal first.
- **The radio generator** (`sdr_rng.py`, module `SdrRng`).
  - Extraction of the low bit of each signed 8-bit I and Q sample.
  - Interleaving, zero padding to whole bytes and MSB-first packing.
  - The SHA-256 whitening loop with its counter, clock and cycle limit.
  - The module-level fallback to `secrets.token_bytes`.
- **The entropy chain** (`aqrng.py`, module `Aqrng`). It fetches from the
  ANU quantum service in chunks of at most 1024 values, and any bad reply
  aborts the whole fetch. The fixed fallback order is: SDR helper, then
  ANU, then `secrets`.

Several things outside the program are parameters rather than code:

- the radio's raw block for each cycle;
- the clock;
- SHA-256 (FIPS 180-4), as a function returning 32-byte digests;
- the ANU service's reply to the k-th request;
- the bits from `secrets`;
- `sqrt`, constrained by `IsSqrt`.

Points where the code's behaviour is easy to misread:

- The effect size is `(experimentMean - baselineMean) / 0.5 * 100`. An
  all-zero baseline against an all-one experiment therefore gives +200
  (`Collector.AllZeroBaselineAllOneExperiment`), and the effect ranges over
  [-200, 200].
- `prefer_online` of `aqrng.get_random_bytes` is accepted and ignored, and
  the SDR helper is tried before ANU, although the docstring lists ANU
  first (`Aqrng.PreferOnlineIgnored`). The SDR helper never fails for
  `n > 0`, because it falls back to `secrets` itself. So whenever it
  imports, the ANU service is never consulted
  (`Aqrng.AnuNeverReachedWhenSdrImports`).
- The parser ignores flags bit 3 (Energy Expended present). A 2-byte energy
  field is read as if it were the first RR interval
  (`HeartRate.EnergyExpendedReadAsRr`).

## Model

| member | source | states |
|---|---|---|
| Common.Sum | rng_collector.py:61 | a bit sequence has at most as many 1-bits as it has bits |
| Common.SumConstant | rng_collector.py:77-78 | an all-`b` bit sequence sums to `b` times its length |
| Common.Mean | rng_collector.py:61 | the mean of a non-empty bit sequence lies in [0, 1] |
| Common.SliceFrom | rng_collector.py:60 | Python's `s[start:]`: a non-negative start is clamped to the length; a negative start counts from the end and is clamped to 0 |
| BoundedDeque.Window | rng_collector.py:8-9 | the deque's contents hold `min(len, maxlen)` items |
| BoundedDeque.Append | rng_collector.py:31-33 | `append` on a deque bounded by `cap` gives the last `cap` items of old contents plus the new item; it grows by one when not full and drops the oldest item when full; the new item is last |
| BoundedDeque.AppendAll | rng_collector.py:27-34 | any number of appends keeps the deque within `maxlen` |
| BoundedDeque.WindowOfAppend | hrv_manager.py:112 | appending to a bounded deque and then truncating equals truncating the whole history |
| BoundedDeque.AppendAllIsWindow | rng_collector.py:27-34 | appending a batch one item at a time keeps exactly the last `cap` items of old contents followed by the batch, in order |
| BoundedDeque.WindowOfWindow | rng_collector.py:8-9 | the contents after any later appends depend only on the retained window, not on items already dropped |
| Collector.ZScore | rng_collector.py:62 | the z-score is positive, negative or zero exactly when the mean is above, below or at one half |
| Collector.RecentBits | rng_collector.py:60 | for a positive window the analysed slice is the last `window` bits (the deque window); a zero window is the whole buffer, as `s[-0:]` is |
| Collector.DivisionKeepsSign | rng_collector.py:62 | dividing by a positive scale keeps the sign; a step of the proof that the z-score sign follows the mean (`Collector.ZScore`) |
| Collector.ComputeStats | rng_collector.py:50-70 | count, marker count and mode are reported; below 10 bits the fixed placeholder (mean 0.5, z 0) is returned; `ZeroDivisionError` occurs exactly when the slice is empty (a window `<= -count`); for a positive window the mean is over the last `window` bits; the mean is in [0, 1]; the z-score sign follows the mean |
| Collector.Compare | rng_collector.py:74-89 | `None` exactly when either buffer has fewer than 100 bits; otherwise both means, both lengths, and an effect in [-200, 200] |
| Collector.EffectMeasuresMeanDifference | rng_collector.py:81 | the effect is positive, negative or zero exactly when the experiment mean is above, below or equal to the baseline mean |
| Collector.AllZeroBaselineAllOneExperiment | rng_collector.py:77-81 | an all-zero baseline against an all-one experiment yields effect +200 |
| Collector.RngCollector.constructor | rng_collector.py:7-13 | both buffers and the marker list start empty, not running, mode "experiment" |
| Collector.RngCollector.Start | rng_collector.py:15-20 | sets the run flag and the mode; buffers and markers are unchanged |
| Collector.RngCollector.Stop | rng_collector.py:22-25 | clears the run flag; nothing else changes |
| Collector.RngCollector.CollectStep | rng_collector.py:27-34 | in mode "baseline" only the baseline buffer receives the bit, otherwise only the experiment buffer does; the receiving buffer is the bounded window of its history plus the bit; both stay within 100000 |
| Collector.RngCollector.MarkEvent | rng_collector.py:36-42 | appends exactly one marker stamped with the current time and the experiment buffer's length, whatever the mode; nothing else changes |
| Collector.RngCollector.GetStats | rng_collector.py:44-70 | analyses the buffer the mode makes active; count, marker count and mode are reported |
| Collector.RngCollector.GetBaselineComparison | rng_collector.py:72-89 | `None` exactly when either buffer holds fewer than 100 bits; otherwise reports both buffer lengths |
| HeartRate.Le16 | hrv_manager.py:102 | `struct.unpack('<H')` yields a value below 65536 |
| HeartRate.DeviceTag | hrv_manager.py:119 | `address[-5:]`: the last five characters, or the whole address when it is shorter |
| HeartRate.HeartRateValue | hrv_manager.py:98-103 | the heart rate fits 16 bits, and 8 bits when flags bit 0 is clear |
| HeartRate.RrIntervals | hrv_manager.py:105-113 | from an in-range offset, one interval per complete two-byte field |
| HeartRate.PayloadRr | hrv_manager.py:105-113 | no intervals unless flags bit 4 is set; otherwise one per complete field after the heart rate |
| HeartRate.RrIntervalsFields | hrv_manager.py:105-113 | the RR loop reads `floor((len - offset) / 2)` fields; field k is the little-endian value at `offset + 2k`, times 1000/1024 |
| HeartRate.EncodeMeasurement | hrv_manager.py:92-103 | a sensor payload has at least two bytes, and its flags carry bit 0 for a wide heart rate and bit 4 for RR fields |
| HeartRate.EncodeRr | hrv_manager.py:108-109 | each encoded RR field takes two bytes |
| HeartRate.RrIntervalsOfEncoded | hrv_manager.py:105-113 | decoding encoded RR fields gives back each raw value converted to milliseconds, in order |
| HeartRate.DecodeEncodedMeasurement | hrv_manager.py:87-113 | round trip: the parser recovers the encoded heart-rate width, the heart rate, and (when bit 4 is set) every RR interval |
| HeartRate.EnergyExpendedReadAsRr | hrv_manager.py:93-113 | with flags bit 3 set, the energy field is read as an RR interval |
| HeartRate.Diffs | hrv_manager.py:137 | `numpy.diff`: n-1 successive differences `rr[i+1] - rr[i]` |
| HeartRate.SumSquares | hrv_manager.py:140 | a sum of squares is never negative |
| HeartRate.SumSquaresOfZeros | hrv_manager.py:140 | all-zero differences square-sum to 0 |
| HeartRate.Rmssd | hrv_manager.py:140 | the RMSSD is non-negative |
| HeartRate.Clamp01 | hrv_manager.py:146 | `min(max(x, 0), 1)` lies in [0, 1] and is the identity on [0, 1] |
| HeartRate.Coherence | hrv_manager.py:126-146 | coherence lies in [0, 1] and is 0 with fewer than 10 buffered intervals |
| HeartRate.CoherenceOfRmssd | hrv_manager.py:140-146 | coherence is exactly the reciprocal of `1 + RMSSD/50`: 1 at RMSSD 0, one half at RMSSD 50 |
| HeartRate.CoherenceIsMonotone | hrv_manager.py:140-146 | a lower RMSSD never gives a lower coherence |
| HeartRate.ReciprocalAntitone | hrv_manager.py:144 | the reciprocal is antitone on positive reals; a step of the proof that coherence falls as RMSSD rises (`HeartRate.CoherenceIsMonotone`) |
| HeartRate.UnitReciprocal | hrv_manager.py:144-146 | `1 / (1 + x)` lies in (0, 1] for `x >= 0`, so the clamp never changes it; a step of the proofs of `HeartRate.CoherenceOfRmssd` and `HeartRate.Coherence` |
| HeartRate.ConstantRhythmIsFullyCoherent | hrv_manager.py:130-146 | a buffer of at least 10 equal RR intervals has coherence 1 |
| HeartRate.Readings | hrv_manager.py:148-158 | the drained readings are never more than the queue entries |
| HeartRate.ReadingsAppend | hrv_manager.py:148-158 | draining a concatenated queue yields the first part's readings followed by the second part's readings, in FIFO order |
| HeartRate.Lower | hrv_manager.py:39 | lower-casing keeps the length |
| HeartRate.MatchesAnySomePattern | hrv_manager.py:37-40 | holds exactly when some pattern, lower-cased, occurs in the lower-cased name |
| HeartRate.KeptExactly | hrv_manager.py:37-40 | a device is listed exactly when it has a non-empty name matching a pattern |
| HeartRate.Matching | hrv_manager.py:36-45 | a scan lists at most one entry per discovered device |
| HeartRate.Keep | hrv_manager.py:38-45 | a discovered device contributes at most one entry, even when it matches several patterns |
| HeartRate.MatchingOne | hrv_manager.py:36-45 | the filter over one device is that device's own contribution |
| HeartRate.MatchingAppend | hrv_manager.py:36-45 | the filter distributes over concatenation and keeps discovery order |
| HeartRate.MatchingOnlyMatches | hrv_manager.py:36-45 | every listed device has a name matching some pattern, ignoring case |
| HeartRate.Insert | hrv_manager.py:48 | insertion adds one entry and puts either it or the old first entry at the front |
| HeartRate.InsertKeepsOrder | hrv_manager.py:48 | inserting into a strongest-first list keeps it strongest-first |
| HeartRate.InsertPermutes | hrv_manager.py:48 | insertion adds exactly the new entry to the multiset |
| HeartRate.SortByRssi | hrv_manager.py:48 | sorting keeps the length |
| HeartRate.SortByRssiSorts | hrv_manager.py:48 | the sort by descending RSSI is strongest-first and a permutation of its input |
| HeartRate.InsertIsStable | hrv_manager.py:48 | the inserted entry lands after every entry of equal strength |
| HeartRate.SortByRssiStable | hrv_manager.py:48 | the sort is stable: for every strength, the entries of that strength keep their input order |
| HeartRate.HrvDeviceManager.constructor | hrv_manager.py:10-30 | no RR buffers and an empty coherence queue |
| HeartRate.HrvDeviceManager.ConnectDevices | hrv_manager.py:50-56 | every selected address gets a fresh empty buffer (replacing an old one); other buffers and the queue are unchanged |
| HeartRate.HrvDeviceManager.ParseHrData | hrv_manager.py:87-124 | proved against the reference predicate `HeartRate.ParseEffect`: `None` below two bytes; a truncated 16-bit heart rate raises; an unknown address raises; a failed parse changes no buffer; the parse succeeds exactly when none of these applies; on success the device buffer becomes the 120-window of its history plus the payload's RR intervals, and the reading carries `address[-5:]`, the heart rate, the RR count and the coherence of the updated buffer |
| HeartRate.HrvDeviceManager.AppendRrFields | hrv_manager.py:105-113 | the RR loop returns exactly the payload's RR intervals and appends them, in order, to the device's bounded buffer only |
| HeartRate.HrvDeviceManager.OnNotification | hrv_manager.py:67-70 | the parse has the same outcome and buffer effect as `ParseHrData` (succeeding exactly for a long-enough payload from a known device); a parsed reading is queued at the back; otherwise the queue is unchanged |
| HeartRate.HrvDeviceManager.ReportDeviceError | hrv_manager.py:79-85 | one error record with tag `address[-5:]` and coherence 0 is queued; the buffers are unchanged |
| HeartRate.HrvDeviceManager.GetAllCoherence | hrv_manager.py:148-158 | returns exactly the queued readings in FIFO order without the error records, and leaves the queue empty |
| HeartRate.HrvDeviceManager.ScanDevices | hrv_manager.py:32-49 | the result is strongest-first, holds exactly the named pattern-matching devices (as a multiset), keeps discovery order among devices of equal RSSI, and each of them matches a pattern |
| SdrRng.TwosComplement | sdr_rng.py:68-72 | storing an int8 as a byte keeps its parity |
| SdrRng.Lsb | sdr_rng.py:72-73 | `x & 1` on an int8 is `x mod 2` (1 for odd samples, negative ones included) |
| SdrRng.LsbBits | sdr_rng.py:72-73 | bit k is the low bit of sample k |
| SdrRng.Interleave | sdr_rng.py:75-77 | position 2k holds the I bit and position 2k+1 the Q bit of sample k |
| SdrRng.PadToByte | sdr_rng.py:79-82 | at most 7 zero bits are appended, reaching a multiple of 8; the original bits come first |
| SdrRng.Pow2 | sdr_rng.py:84-85 | a bit weight is at least 1 |
| SdrRng.BitsValue | sdr_rng.py:84-85 | n bits denote a number below 2^n |
| SdrRng.ValueBits | sdr_rng.py:84-85 | writing a number as n bits gives exactly n bits |
| SdrRng.ValueBitsOfBitsValue | sdr_rng.py:84-85 | round trip: writing the number that n bits denote back as n bits recovers them |
| SdrRng.BitsValueHead | sdr_rng.py:84-85 | the first bit carries the highest weight |
| SdrRng.ByteOf | sdr_rng.py:84-85 | packbits is big-endian in the byte: the byte is >= 128 exactly when bit 0 is set, and its parity is bit 7 |
| SdrRng.BitsOf | sdr_rng.py:84-85 | a byte unpacks into 8 bits |
| SdrRng.ByteBitsRoundTrip | sdr_rng.py:84-85 | unpacking a packed byte gives back its 8 bits |
| SdrRng.PackBits | sdr_rng.py:84-87 | 8n bits pack into n bytes |
| SdrRng.UnpackBits | sdr_rng.py:84-87 | n bytes unpack into 8n bits |
| SdrRng.UnpackPack | sdr_rng.py:84-87 | round trip: unpacking the packed bits gives them back |
| SdrRng.RawBlockLayout | sdr_rng.py:71-88 | the raw block has ceil(2N/8) bytes; unpacked, it holds I0 Q0 I1 Q1 ... followed by zero padding only |
| SdrRng.RawBlock | sdr_rng.py:71-87 | the packed block of N sample pairs has ceil(2N/8) bytes |
| SdrRng.RawBlockEmpty | sdr_rng.py:88-110 | the raw block is empty (the "No raw bytes" error) exactly when there are no samples |
| SdrRng.BigEndian | sdr_rng.py:113-114 | `struct.pack` of an n-byte field yields n bytes |
| SdrRng.BigEndianValue | sdr_rng.py:113-114 | n big-endian bytes denote a number below 256^n |
| SdrRng.BigEndianRoundTrip | sdr_rng.py:113-114 | round trip: a value below 256^n packed into n big-endian bytes is read back unchanged |
| SdrRng.HashInput | sdr_rng.py:112-115 | the hashed message is 12 header bytes followed by the raw block |
| SdrRng.HashInputFields | sdr_rng.py:112-115 | the header's first 8 bytes read back as the clock modulo 2^64 and the next 4 as the counter, so distinct counters give distinct messages |
| SdrRng.FirstBadCycle | sdr_rng.py:107-114 | finds the first failing cycle below k, or reports that every cycle below k succeeds |
| SdrRng.FirstBadCycleIs | sdr_rng.py:107-114 | a failing cycle preceded only by good cycles is the first failure of every longer run |
| SdrRng.Stream | sdr_rng.py:112-117 | k successful cycles yield 32k bytes of digests |
| SdrRng.CyclesNeededBounds | sdr_rng.py:107-119 | the number of cycles needed is ceil(n/32): enough digests, and one fewer is not |
| SdrRng.Whitened | sdr_rng.py:96-123 | the loop's outcome stated without a loop; nothing is sampled and the output is empty for `nbytes <= 0` |
| SdrRng.WhitenedCompletes | sdr_rng.py:104-123 | when every needed cycle is allowed and succeeds, the output is the first `nbytes` bytes of the digest stream |
| SdrRng.WhitenedRunsOut | sdr_rng.py:119-121 | when the limit allows too few cycles and they all succeed, the outcome is "not enough output" |
| SdrRng.WhitenedLength | sdr_rng.py:96-123 | success yields exactly `nbytes` bytes (none for `nbytes <= 0`, with no sampling); success needs `nbytes <= 32 * CycleLimit(max_cycles)`, that is `nbytes <= 32 * (max_cycles + 1)`, or `nbytes <= 32` when `max_cycles < 0` (one cycle always runs); it is guaranteed when that holds and every needed cycle samples successfully |
| SdrRng.StreamPrefix | sdr_rng.py:104-123 | every output is a prefix of the same digest stream, whatever `nbytes` asked for |
| SdrRng.Cycle | sdr_rng.py:108-116 | a cycle fails with the radio's exception, with "no raw bytes", or with the counter overflowing `'>I'`; otherwise it yields SHA-256 of clock, counter and raw block |
| SdrRng.WhitenedBytes | sdr_rng.py:96-123 | the loop yields exactly the specification `Whitened`: the first failing cycle decides the error, too few cycles allowed gives "not enough output", otherwise the first `nbytes` of the digest stream |
| SdrRng.GetRandomBytes | sdr_rng.py:151-174 | the radio's output when preferred, available and successful; otherwise `secrets.token_bytes(n)`, which raises for a negative `n` |
| SdrRng.GetRandomBytesLength | sdr_rng.py:151-174 | with the radio run at the default 16 cycles, for `nbytes >= 0` the helper always succeeds with exactly `nbytes` bytes |
| Aqrng.AsBytes | aqrng.py:51 | `bytes(data)` has one byte per value |
| Aqrng.FetchFrom | aqrng.py:26-60 | nothing wanted gives the empty fetch; a first reply that is not accepted makes the whole fetch fail |
| Aqrng.Asks | aqrng.py:36-38 | the first request asks for `min(remaining, 1024)`, and it is the only one when its reply is not accepted |
| Aqrng.AsksBounded | aqrng.py:32-38 | every request asks for between 1 and 1024 values; no request is made when nothing is wanted |
| Aqrng.FetchLength | aqrng.py:36-60 | a successful fetch holds at least the bytes wanted, and exactly that many when the service never oversends |
| Aqrng.PrependAssoc | aqrng.py:51-60 | joining chunks is associative; a step of the proof that the chunk loop yields `FetchFrom` (`Aqrng.FetchAnuBytes`) |
| Aqrng.FetchAnuBytes | aqrng.py:26-60 | the chunk loop yields exactly the specification `FetchFrom`: the chunks in order, or `None` as soon as one reply fails |
| Aqrng.GetRandomBytes | aqrng.py:63-93 | empty for `n <= 0`; otherwise exactly `n` bytes, from the SDR helper if it imports and yields enough, else from ANU if that yields enough, else from `secrets` |
| Aqrng.PreferOnlineIgnored | aqrng.py:63-93 | the result does not depend on `prefer_online` |
| Aqrng.SoftwareOnlyWhenBothFail | aqrng.py:84-93 | a successful ANU fetch is always long enough, so `secrets` is reached only when both the SDR and the network fail |
| Aqrng.AnuNeverReachedWhenSdrImports | aqrng.py:71-82 | when the SDR helper imports, the chain returns its output for every `n > 0`, so the ANU service is never consulted |

## Left out

- Threads and timing: the `_collect` thread, `time.sleep`, `thread.join`,
  and the asyncio device tasks are not modelled. `CollectStep` is one
  iteration of the producer loop. `OnNotification` and `ReportDeviceError`
  are the two ways a device task writes the queue. Races between the
  producer and readers are not modelled.
- BLE I/O: `BleakScanner.discover`, `BleakClient` connection, notifications
  and `disconnect_all` (a no-op) are not modelled. `ScanDevices` takes the
  discovered devices as input.
- The `devices` and `active_clients` fields are only initialised by the
  code and are not modelled. The `thread` field holds the producer thread
  of the first bullet and is not modelled either.
- Floating point: means, z-scores, RR conversions, RMSSD and coherence
  are exact reals. IEEE rounding is not modelled, and `sqrt` is any
  function satisfying `IsSqrt`.
- The quantisation `np.clip(np.round(x * 127))` of complex samples is not
  modelled. The model starts from the int8 I/Q samples.
- The radio (`RtlSdr`), `is_sdr_available`, the `SDRRNG` constructor and
  its parameters are not modelled. Their outcome is an input: whether the
  SDR is available, and the raw block or exception of each cycle.
- SHA-256, the clock and `secrets` are oracles (function or sequence
  parameters). Their internals and their randomness are not modelled.
- The network is an oracle indexed by request number. Timeouts, the
  sleep between chunks, URL construction and JSON decoding are collapsed
  into the four reply kinds of `AnuReply`. A `data` list with non-integer
  items (which makes `bytes()` raise) counts as a failed request.
- `get_all_coherence`: the `except: break` around `get_nowait` is not
  modelled. With a single consumer the queue cannot empty between the
  check and the get.
- `HeartRate.Lower`: case folding is ASCII only, whereas Python's
  `str.lower` also folds non-ASCII letters.
- `HeartRate.HrvDeviceManager.ParseHrData`: the timestamp is the `now`
  parameter, standing for `time.time()`.
- `Collector.RngCollector.GetStats`: its own contract states the count,
  the marker count and the mode. The mean, z-score and error conditions
  are stated on `Collector.ComputeStats`, which it returns unchanged.
- `Collector.RngCollector.GetBaselineComparison`: its own contract states
  the lengths and the `None` condition. The means and the effect are
  stated on `Collector.Compare`, which it returns unchanged.
- The z-score divides by `0.5 / sqrt(n)`, modelled with exact reals.
  Python evaluates `len(recent)**0.5` in floating point.
- The module-level `__main__` command line of `sdr_rng.py` is not part of
  the model, nor is the `verbose` printing.
