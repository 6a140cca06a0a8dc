/** The heart-rate device manager of `hrv_manager.py`: decoding of the
    Heart Rate Measurement characteristic (UUID 0x2A37, section 3.1 of the
    Bluetooth Heart Rate Service 1.0 specification) as the code does it,
    the per-device buffers of RR intervals, the coherence score derived from
    them, the output queue and the filter applied to scan results. */
module HeartRate {
  import opened Common
  import BoundedDeque

  /** `deque(maxlen=120)`: about two minutes of RR intervals. */
  const MaxRr: nat := 120
  /** Below this many buffered RR intervals the coherence is 0. */
  const MinCoherenceSamples: nat := 10
  /** The RMSSD, in milliseconds, at which coherence is one half. */
  const RmssdScale: real := 50.0

  /** The names a scanned device must contain (ignoring case) to be listed. */
  const DevicePatterns: seq<string> := [
    "Polar", "H808S", "H10", "H9", "OH1",
    "Garmin", "HRM-Dual", "HRM-Pro", "HRM-Run",
    "Wahoo", "TICKR", "TICKR X",
    "Suunto", "Smart Sensor",
    "Zephyr", "HxM",
    "RHYTHM", "Scosche",
    "HRM", "Heart Rate"
  ]

  /** A device seen by the scanner; `name` is absent for unnamed devices. */
  datatype Advertisement = Advertisement(name: Option<string>, address: string, rssi: int)

  /** One entry of the list `scan_devices` returns. */
  datatype FoundDevice = FoundDevice(name: string, address: string, rssi: int)

  /** The dictionary `_parse_hr_data` returns for one notification. */
  datatype Reading = Reading(device: string, hr: nat, rrCount: nat, coherence: real, timestamp: real)

  /** An entry of the coherence queue: a reading, or the error record the
      device task puts there when its connection fails. */
  datatype QueueItem = Sample(reading: Reading) | DeviceError(device: string, error: string, coherence: real)

  /** The exceptions `_parse_hr_data` can raise: `struct.error` when a
      16-bit heart rate is announced but only one byte follows the flags,
      and `KeyError` when the address has no RR buffer. */
  datatype ParseError = TruncatedHeartRate | UnknownDevice

  /** `None` for a payload shorter than two bytes, a reading, or an exception. */
  datatype ParseOutcome = TooShort | Parsed(reading: Reading) | Raised(error: ParseError)

  // ---------------------------------------------------------------------
  // Payload layout

  /** `address[-5:]`, the short device tag put in readings and errors. */
  function DeviceTag(address: string): (r: string)
    ensures |r| == if |address| < 5 then |address| else 5
    ensures r == address[|address| - |r|..]
  {
    SliceFrom(address, -5)
  }

  /** Flags bit 0: the heart rate is a 16-bit field. */
  predicate HeartRateIs16Bit(flags: byte)
  {
    flags % 2 == 1
  }

  /** Flags bit 4: RR-interval fields follow the heart rate. */
  predicate RrPresent(flags: byte)
  {
    (flags / 16) % 2 == 1
  }

  /** The little-endian unsigned 16-bit value of two bytes (`struct.unpack('<H', …)`). */
  function Le16(lo: byte, hi: byte): (v: nat)
    ensures v < 65536
  {
    lo + 256 * hi
  }

  /** An RR interval in 1/1024 s converted to milliseconds. */
  function RrMs(raw: nat): real
  {
    raw as real * 1000.0 / 1024.0
  }

  /** Offset of the first RR field: after the flags and the heart rate. */
  function RrOffset(flags: byte): nat
  {
    if HeartRateIs16Bit(flags) then 3 else 2
  }

  /** The heart-rate field; the payload must hold it entirely. */
  function HeartRateValue(data: seq<byte>): (r: nat)
    requires |data| >= 2 && |data| >= RrOffset(data[0])
    ensures r < 65536
    ensures !HeartRateIs16Bit(data[0]) ==> r < 256
  {
    if HeartRateIs16Bit(data[0]) then Le16(data[1], data[2]) else data[1]
  }

  /** The RR intervals read from `offset` on, two bytes each, a trailing
      odd byte ignored. */
  function RrIntervals(data: seq<byte>, offset: nat): (r: seq<real>)
    ensures offset <= |data| ==> |r| == (|data| - offset) / 2
    decreases |data| - offset
  {
    if offset + 1 < |data| then
      [RrMs(Le16(data[offset], data[offset + 1]))] + RrIntervals(data, offset + 2)
    else
      []
  }

  /** The RR intervals of a whole payload: none unless flags bit 4 is set. */
  function PayloadRr(data: seq<byte>): (r: seq<real>)
    requires |data| >= 1
    ensures !RrPresent(data[0]) ==> r == []
    ensures RrPresent(data[0]) && RrOffset(data[0]) <= |data| ==> |r| == (|data| - RrOffset(data[0])) / 2
  {
    if RrPresent(data[0]) then RrIntervals(data, RrOffset(data[0])) else []
  }

  /** `floor((len - offset) / 2)` fields are read, each the little-endian
      value at `offset + 2k` converted to milliseconds. */
  lemma {:induction false} RrIntervalsFields(data: seq<byte>, offset: nat)
    requires offset <= |data|
    ensures |RrIntervals(data, offset)| == (|data| - offset) / 2
    ensures forall k :: 0 <= k < (|data| - offset) / 2 ==>
      RrIntervals(data, offset)[k] == RrMs(Le16(data[offset + 2 * k], data[offset + 2 * k + 1]))
    decreases |data| - offset
  {
    if offset + 1 < |data| {
      RrIntervalsFields(data, offset + 2);
      var rest := RrIntervals(data, offset + 2);
      var all := RrIntervals(data, offset);
      assert all == [RrMs(Le16(data[offset], data[offset + 1]))] + rest;
      assert (|data| - (offset + 2)) / 2 == (|data| - offset) / 2 - 1;
      forall k | 1 <= k < (|data| - offset) / 2
        ensures all[k] == RrMs(Le16(data[offset + 2 * k], data[offset + 2 * k + 1]))
      {
        assert all[k] == rest[k - 1];
        assert offset + 2 + 2 * (k - 1) == offset + 2 * k;
      }
    }
  }

  /** A payload as a sensor lays it out: flags with only bits 0 and 4
      meaningful, the heart rate in one or two bytes, then RR fields. */
  function EncodeMeasurement(wide: bool, hr: nat, rrPresent: bool, rrRaw: seq<nat>): (data: seq<byte>)
    requires if wide then hr < 65536 else hr < 256
    requires forall k :: 0 <= k < |rrRaw| ==> rrRaw[k] < 65536
    ensures |data| >= 2 && data[0] == (if wide then 1 else 0) + (if rrPresent then 16 else 0)
  {
    var flags: byte := (if wide then 1 else 0) + (if rrPresent then 16 else 0);
    var hrField: seq<byte> := if wide then [hr % 256, hr / 256] else [hr];
    [flags] + hrField + EncodeRr(rrRaw)
  }

  function EncodeRr(rrRaw: seq<nat>): (out: seq<byte>)
    requires forall k :: 0 <= k < |rrRaw| ==> rrRaw[k] < 65536
    ensures |out| == 2 * |rrRaw|
  {
    if rrRaw == [] then [] else [rrRaw[0] % 256, rrRaw[0] / 256] + EncodeRr(rrRaw[1..])
  }

  lemma {:induction false} RrIntervalsOfEncoded(prefix: seq<byte>, rrRaw: seq<nat>)
    requires forall k :: 0 <= k < |rrRaw| ==> rrRaw[k] < 65536
    ensures RrIntervals(prefix + EncodeRr(rrRaw), |prefix|) == seq(|rrRaw|, k requires 0 <= k < |rrRaw| => RrMs(rrRaw[k]))
    decreases |rrRaw|
  {
    var data := prefix + EncodeRr(rrRaw);
    if rrRaw != [] {
      var lo: byte := rrRaw[0] % 256;
      var hi: byte := rrRaw[0] / 256;
      var prefix' := prefix + [lo, hi];
      assert data == prefix' + EncodeRr(rrRaw[1..]);
      RrIntervalsOfEncoded(prefix', rrRaw[1..]);
      assert Le16(data[|prefix|], data[|prefix| + 1]) == rrRaw[0];
    }
  }

  /** Decoding what a sensor encodes gives back its heart rate and, when
      flags bit 4 is set, each RR interval in milliseconds, in order. */
  lemma DecodeEncodedMeasurement(wide: bool, hr: nat, rrPresent: bool, rrRaw: seq<nat>)
    requires if wide then hr < 65536 else hr < 256
    requires forall k :: 0 <= k < |rrRaw| ==> rrRaw[k] < 65536
    ensures var data := EncodeMeasurement(wide, hr, rrPresent, rrRaw);
      && HeartRateIs16Bit(data[0]) == wide
      && |data| >= RrOffset(data[0])
      && HeartRateValue(data) == hr
      && PayloadRr(data) == if rrPresent then seq(|rrRaw|, k requires 0 <= k < |rrRaw| => RrMs(rrRaw[k])) else []
  {
    var data := EncodeMeasurement(wide, hr, rrPresent, rrRaw);
    var flags: byte := (if wide then 1 else 0) + (if rrPresent then 16 else 0);
    var hrField: seq<byte> := if wide then [hr % 256, hr / 256] else [hr];
    assert data == ([flags] + hrField) + EncodeRr(rrRaw);
    RrIntervalsOfEncoded([flags] + hrField, rrRaw);
  }

  /** Flags bit 3 (Energy Expended present) is not looked at: an energy
      field is read as if it were the first RR interval. */
  lemma EnergyExpendedReadAsRr()
    ensures PayloadRr([0x18, 70, 0x10, 0x00, 0x00, 0x04]) == [RrMs(16), 1000.0]
  {
    assert RrIntervals([0x18, 70, 0x10, 0x00, 0x00, 0x04], 6) == [];
  }

  // ---------------------------------------------------------------------
  // Coherence

  /** Successive differences `numpy.diff`. */
  function Diffs(rr: seq<real>): (d: seq<real>)
    requires |rr| >= 1
    ensures |d| == |rr| - 1
    ensures forall i :: 0 <= i < |d| ==> d[i] == rr[i + 1] - rr[i]
  {
    seq(|rr| - 1, i requires 0 <= i < |rr| - 1 => rr[i + 1] - rr[i])
  }

  function SumSquares(d: seq<real>): (s: real)
    ensures s >= 0.0
  {
    if d == [] then 0.0 else SumSquares(d[..|d| - 1]) + d[|d| - 1] * d[|d| - 1]
  }

  lemma {:induction false} SumSquaresOfZeros(d: seq<real>)
    requires forall i :: 0 <= i < |d| ==> d[i] == 0.0
    ensures SumSquares(d) == 0.0
  {
    if d != [] {
      SumSquaresOfZeros(d[..|d| - 1]);
    }
  }

  /** The root mean square of successive differences. */
  function Rmssd(rr: seq<real>, sqrt: real -> real): (v: real)
    requires IsSqrt(sqrt) && |rr| >= 2
    ensures v >= 0.0
  {
    sqrt(SumSquares(Diffs(rr)) / (|rr| - 1) as real)
  }

  function Clamp01(x: real): (c: real)
    ensures 0.0 <= c <= 1.0
    ensures 0.0 <= x <= 1.0 ==> c == x
  {
    if x < 0.0 then 0.0 else if x > 1.0 then 1.0 else x
  }

  /** `_calculate_coherence` over a buffer snapshot. */
  function Coherence(rr: seq<real>, sqrt: real -> real): (c: real)
    requires IsSqrt(sqrt)
    ensures 0.0 <= c <= 1.0
    ensures |rr| < MinCoherenceSamples ==> c == 0.0
  {
    if |rr| < MinCoherenceSamples then 0.0
    else Clamp01(1.0 / (1.0 + Rmssd(rr, sqrt) / RmssdScale))
  }

  /** Coherence decreases as the RMSSD grows: it is 1 at RMSSD 0, one half
      at RMSSD 50 ms, and lower variability never scores lower. */
  lemma CoherenceOfRmssd(rr: seq<real>, sqrt: real -> real)
    requires IsSqrt(sqrt) && |rr| >= MinCoherenceSamples
    ensures Coherence(rr, sqrt) * (1.0 + Rmssd(rr, sqrt) / RmssdScale) == 1.0
    ensures Rmssd(rr, sqrt) == RmssdScale ==> Coherence(rr, sqrt) == 0.5
    ensures Rmssd(rr, sqrt) == 0.0 ==> Coherence(rr, sqrt) == 1.0
  {
    var x := Rmssd(rr, sqrt) / RmssdScale;
    assert 1.0 / (1.0 + x) <= 1.0;
  }

  lemma CoherenceIsMonotone(a: seq<real>, b: seq<real>, sqrt: real -> real)
    requires IsSqrt(sqrt) && |a| >= MinCoherenceSamples && |b| >= MinCoherenceSamples
    requires Rmssd(a, sqrt) <= Rmssd(b, sqrt)
    ensures Coherence(a, sqrt) >= Coherence(b, sqrt)
  {
    var x := Rmssd(a, sqrt) / RmssdScale;
    var y := Rmssd(b, sqrt) / RmssdScale;
    ReciprocalAntitone(1.0 + x, 1.0 + y);
    UnitReciprocal(x);
    UnitReciprocal(y);
  }

  lemma ReciprocalAntitone(p: real, q: real)
    requires 0.0 < p <= q
    ensures 1.0 / q <= 1.0 / p
  {
  }

  lemma UnitReciprocal(x: real)
    requires 0.0 <= x
    ensures 0.0 < 1.0 / (1.0 + x) <= 1.0
  {
  }

  /** A perfectly regular rhythm (all RR intervals equal) has coherence 1. */
  lemma ConstantRhythmIsFullyCoherent(rr: seq<real>, sqrt: real -> real)
    requires IsSqrt(sqrt) && |rr| >= MinCoherenceSamples
    requires forall i :: 0 <= i < |rr| ==> rr[i] == rr[0]
    ensures Coherence(rr, sqrt) == 1.0
  {
    SumSquaresOfZeros(Diffs(rr));
    CoherenceOfRmssd(rr, sqrt);
  }

  // ---------------------------------------------------------------------
  // Queue and scan filter

  /** The readings of a queue in FIFO order, error records left out. */
  function Readings(q: seq<QueueItem>): (r: seq<Reading>)
    ensures |r| <= |q|
  {
    if q == [] then []
    else (if q[0].Sample? then [q[0].reading] else []) + Readings(q[1..])
  }

  lemma {:induction false} ReadingsAppend(p: seq<QueueItem>, q: seq<QueueItem>)
    ensures Readings(p + q) == Readings(p) + Readings(q)
    decreases |p|
  {
    if p == [] {
      assert p + q == q;
    } else {
      assert (p + q)[0] == p[0] && (p + q)[1..] == p[1..] + q;
      ReadingsAppend(p[1..], q);
    }
  }

  /** ASCII lower-casing of one character. */
  function LowerChar(c: char): char
  {
    if 'A' <= c <= 'Z' then (c as int + 32) as char else c
  }

  function Lower(s: string): (r: string)
    ensures |r| == |s|
  {
    seq(|s|, i requires 0 <= i < |s| => LowerChar(s[i]))
  }

  predicate OccursAt(haystack: string, needle: string, i: nat)
  {
    i + |needle| <= |haystack| && haystack[i..i + |needle|] == needle
  }

  /** `needle in haystack` for strings. */
  predicate Contains(haystack: string, needle: string)
  {
    exists i | 0 <= i <= |haystack| :: OccursAt(haystack, needle, i)
  }

  /** The name contains one of the patterns, ignoring (ASCII) case. */
  predicate MatchesPattern(name: string)
  {
    MatchesAny(name, DevicePatterns)
  }

  /** Some pattern of `patterns` occurs in `name`, ignoring (ASCII) case. */
  predicate MatchesAny(name: string, patterns: seq<string>)
    decreases |patterns|
  {
    patterns != [] && (Contains(Lower(name), Lower(patterns[0])) || MatchesAny(name, patterns[1..]))
  }

  /** A scan keeps a device with a non-empty name that matches a pattern. */
  predicate Kept(d: Advertisement)
  {
    d.name.Some? && d.name.value != "" && MatchesPattern(d.name.value)
  }

  /** The recursive test is Python's `any` over the patterns. */
  lemma {:induction false} MatchesAnySomePattern(name: string, patterns: seq<string>)
    ensures MatchesAny(name, patterns) <==>
      exists j :: 0 <= j < |patterns| && Contains(Lower(name), Lower(patterns[j]))
    decreases |patterns|
  {
    if patterns != [] {
      MatchesAnySomePattern(name, patterns[1..]);
      if exists j :: 0 <= j < |patterns| && Contains(Lower(name), Lower(patterns[j])) {
        var j :| 0 <= j < |patterns| && Contains(Lower(name), Lower(patterns[j]));
        if j > 0 {
          assert patterns[1..][j - 1] == patterns[j];
        }
      }
      if MatchesAny(name, patterns[1..]) {
        var j :| 0 <= j < |patterns[1..]| && Contains(Lower(name), Lower(patterns[1..][j]));
        assert patterns[j + 1] == patterns[1..][j];
      }
    }
  }

  /** A device is kept exactly when it has a non-empty name containing one
      of the device patterns, ignoring case. */
  lemma KeptExactly(d: Advertisement)
    ensures Kept(d) <==>
      && d.name.Some? && d.name.value != ""
      && exists j :: 0 <= j < |DevicePatterns| && Contains(Lower(d.name.value), Lower(DevicePatterns[j]))
  {
    if d.name.Some? {
      MatchesAnySomePattern(d.name.value, DevicePatterns);
    }
  }

  function Found(d: Advertisement): FoundDevice
    requires d.name.Some?
  {
    FoundDevice(d.name.value, d.address, d.rssi)
  }

  /** The devices a scan keeps, in discovery order, each listed once. */
  function Matching(devices: seq<Advertisement>): (r: seq<FoundDevice>)
    ensures |r| <= |devices|
  {
    if devices == [] then [] else Keep(devices[0]) + Matching(devices[1..])
  }

  /** What one discovered device contributes to the scan result. */
  function Keep(d: Advertisement): (r: seq<FoundDevice>)
    ensures |r| <= 1
  {
    if Kept(d) then [Found(d)] else []
  }

  lemma MatchingOne(d: Advertisement)
    ensures Matching([d]) == Keep(d)
  {
    assert [d][1..] == [];
    assert Keep(d) + [] == Keep(d);
  }

  lemma {:induction false} MatchingAppend(p: seq<Advertisement>, q: seq<Advertisement>)
    ensures Matching(p + q) == Matching(p) + Matching(q)
    decreases |p|
  {
    if p == [] {
      assert p + q == q;
    } else {
      assert (p + q)[0] == p[0] && (p + q)[1..] == p[1..] + q;
      MatchingAppend(p[1..], q);
      calc {
        Matching(p + q);
        Keep(p[0]) + Matching(p[1..] + q);
        Keep(p[0]) + (Matching(p[1..]) + Matching(q));
        (Keep(p[0]) + Matching(p[1..])) + Matching(q);
      }
    }
  }

  predicate StrongestFirst(s: seq<FoundDevice>)
  {
    forall i, j :: 0 <= i < j < |s| ==> s[i].rssi >= s[j].rssi
  }

  /** Places `d` after every entry at least as strong (so equal strengths
      keep their order). */
  function Insert(d: FoundDevice, s: seq<FoundDevice>): (r: seq<FoundDevice>)
    ensures |r| == |s| + 1
    ensures r[0] == d || (s != [] && r[0] == s[0])
  {
    if s == [] then [d]
    else if s[0].rssi >= d.rssi then [s[0]] + Insert(d, s[1..])
    else [d] + s
  }

  lemma {:induction false} InsertKeepsOrder(d: FoundDevice, s: seq<FoundDevice>)
    requires StrongestFirst(s)
    ensures StrongestFirst(Insert(d, s))
  {
    if s != [] && s[0].rssi >= d.rssi {
      var rest := Insert(d, s[1..]);
      InsertKeepsOrder(d, s[1..]);
      var r := [s[0]] + rest;
      assert s[0].rssi >= rest[0].rssi;
      forall i, j | 0 <= i < j < |r| ensures r[i].rssi >= r[j].rssi {
        if i == 0 {
          assert r[j] == rest[j - 1];
          assert rest[0].rssi >= rest[j - 1].rssi;
        } else {
          assert r[i] == rest[i - 1] && r[j] == rest[j - 1];
        }
      }
    }
  }

  lemma {:induction false} InsertPermutes(d: FoundDevice, s: seq<FoundDevice>)
    ensures multiset(Insert(d, s)) == multiset(s) + multiset{d}
  {
    if s != [] && s[0].rssi >= d.rssi {
      InsertPermutes(d, s[1..]);
      assert s == [s[0]] + s[1..];
    }
  }

  /** `list.sort(key=rssi, reverse=True)`, as an insertion sort. */
  function SortByRssi(s: seq<FoundDevice>): (r: seq<FoundDevice>)
    ensures |r| == |s|
  {
    if s == [] then [] else Insert(s[|s| - 1], SortByRssi(s[..|s| - 1]))
  }

  /** The sorted list is strongest first and holds the same entries. */
  lemma {:induction false} SortByRssiSorts(s: seq<FoundDevice>)
    ensures StrongestFirst(SortByRssi(s))
    ensures multiset(SortByRssi(s)) == multiset(s)
  {
    if s != [] {
      var init := s[..|s| - 1];
      var last := s[|s| - 1];
      var sorted := SortByRssi(init);
      SortByRssiSorts(init);
      InsertKeepsOrder(last, sorted);
      InsertPermutes(last, sorted);
      assert s == init + [last];
      assert multiset(s) == multiset(init) + multiset{last};
    }
  }

  /** The entries of `s` with signal strength `v`, in their order in `s`. */
  function WithRssi(s: seq<FoundDevice>, v: int): seq<FoundDevice>
  {
    if s == [] then [] else (if s[0].rssi == v then [s[0]] else []) + WithRssi(s[1..], v)
  }

  lemma {:induction false} WithRssiAppend(p: seq<FoundDevice>, q: seq<FoundDevice>, v: int)
    ensures WithRssi(p + q, v) == WithRssi(p, v) + WithRssi(q, v)
    decreases |p|
  {
    if p == [] {
      assert p + q == q;
    } else {
      var head: seq<FoundDevice> := if p[0].rssi == v then [p[0]] else [];
      calc {
        WithRssi(p + q, v);
        { assert (p + q)[0] == p[0] && (p + q)[1..] == p[1..] + q; }
        head + WithRssi(p[1..] + q, v);
        { WithRssiAppend(p[1..], q, v); }
        head + (WithRssi(p[1..], v) + WithRssi(q, v));
        (head + WithRssi(p[1..], v)) + WithRssi(q, v);
      }
    }
  }

  lemma {:induction false} WithRssiNone(s: seq<FoundDevice>, v: int)
    requires forall i :: 0 <= i < |s| ==> s[i].rssi != v
    ensures WithRssi(s, v) == []
    decreases |s|
  {
    if s != [] {
      WithRssiNone(s[1..], v);
    }
  }

  /** Inserting into a strongest-first list puts `d` after every entry of
      the same strength. */
  lemma {:induction false} InsertIsStable(d: FoundDevice, s: seq<FoundDevice>, v: int)
    requires StrongestFirst(s)
    ensures WithRssi(Insert(d, s), v) == WithRssi(s, v) + (if d.rssi == v then [d] else [])
    decreases |s|
  {
    var own: seq<FoundDevice> := if d.rssi == v then [d] else [];
    if s == [] {
      assert WithRssi([d], v) == own + WithRssi([], v);
      assert own + [] == own;
    } else if s[0].rssi >= d.rssi {
      InsertIsStable(d, s[1..], v);
      var head: seq<FoundDevice> := if s[0].rssi == v then [s[0]] else [];
      calc {
        WithRssi(Insert(d, s), v);
        { assert Insert(d, s) == [s[0]] + Insert(d, s[1..]); }
        head + WithRssi(Insert(d, s[1..]), v);
        head + (WithRssi(s[1..], v) + own);
        (head + WithRssi(s[1..], v)) + own;
        WithRssi(s, v) + own;
      }
    } else {
      if d.rssi == v {
        WithRssiNone(s, v);
        assert WithRssi([d] + s, v) == [d] + WithRssi(s, v);
      } else {
        assert WithRssi([d] + s, v) == WithRssi(s, v);
        assert WithRssi(s, v) + [] == WithRssi(s, v);
      }
    }
  }

  /** The sort is stable: entries of equal strength keep their input order. */
  lemma {:induction false} SortByRssiStable(s: seq<FoundDevice>, v: int)
    ensures WithRssi(SortByRssi(s), v) == WithRssi(s, v)
  {
    if s != [] {
      var init := s[..|s| - 1];
      var last := s[|s| - 1];
      var sorted := SortByRssi(init);
      var own: seq<FoundDevice> := if last.rssi == v then [last] else [];
      SortByRssiSorts(init);
      calc {
        WithRssi(SortByRssi(s), v);
        WithRssi(Insert(last, sorted), v);
        { InsertIsStable(last, sorted, v); }
        WithRssi(sorted, v) + own;
        { SortByRssiStable(init, v); }
        WithRssi(init, v) + own;
        { WithRssiSingle(last, v); }
        WithRssi(init, v) + WithRssi([last], v);
        { WithRssiAppend(init, [last], v); }
        WithRssi(init + [last], v);
        { assert init + [last] == s; }
        WithRssi(s, v);
      }
    }
  }

  lemma WithRssiSingle(d: FoundDevice, v: int)
    ensures WithRssi([d], v) == if d.rssi == v then [d] else []
  {
    assert [d][1..] == [];
  }

  /** What `_parse_hr_data(data, address)` returns and does to the RR
      buffers (`before` and `after` the call): `None` for fewer than two
      bytes, `struct.error` for a truncated 16-bit heart rate, `KeyError`
      for an address without a buffer, each leaving the buffers as they
      were; otherwise the payload's RR intervals are appended to the
      device's bounded buffer and the reading describes the payload, with
      the coherence of the updated buffer. */
  ghost predicate ParseEffect(before: map<string, seq<real>>, after: map<string, seq<real>>,
                              data: seq<byte>, address: string, now: real, sqrt: real -> real,
                              r: ParseOutcome)
    requires IsSqrt(sqrt)
  {
    if |data| < 2 then r == TooShort && after == before
    else if |data| < RrOffset(data[0]) then r == Raised(TruncatedHeartRate) && after == before
    else if address !in before then r == Raised(UnknownDevice) && after == before
    else
      && after == before[address := BoundedDeque.Window(before[address] + PayloadRr(data), MaxRr)]
      && r == Parsed(Reading(DeviceTag(address), HeartRateValue(data), |PayloadRr(data)|,
                             Coherence(after[address], sqrt), now))
  }

  // ---------------------------------------------------------------------
  // The manager object

  class HrvDeviceManager {
    /** `rr_buffers`: one bounded buffer of RR intervals (ms) per address. */
    var rrBuffers: map<string, seq<real>>
    /** `coherence_queue`, front first. */
    var coherenceQueue: seq<QueueItem>

    ghost predicate Valid()
      reads this
    {
      forall a :: a in rrBuffers ==> |rrBuffers[a]| <= MaxRr
    }

    constructor ()
      ensures Valid() && rrBuffers == map[] && coherenceQueue == []
    {
      rrBuffers := map[];
      coherenceQueue := [];
    }

    /** The buffer part of `connect_devices`: each selected address gets a
        fresh empty buffer, replacing any earlier one (the monitoring
        threads are not modelled). */
    method ConnectDevices(addresses: seq<string>)
      requires Valid()
      modifies this
      ensures Valid()
      ensures rrBuffers.Keys == old(rrBuffers).Keys + set a | a in addresses
      ensures forall a :: a in addresses ==> rrBuffers[a] == []
      ensures forall a :: a in old(rrBuffers) && a !in addresses ==> rrBuffers[a] == old(rrBuffers)[a]
      ensures coherenceQueue == old(coherenceQueue)
    {
      var i := 0;
      while i < |addresses|
        invariant 0 <= i <= |addresses|
        invariant Valid()
        invariant rrBuffers.Keys == old(rrBuffers).Keys + set a | a in addresses[..i]
        invariant forall a :: a in addresses[..i] ==> rrBuffers[a] == []
        invariant forall a :: a in old(rrBuffers) && a !in addresses[..i] ==> rrBuffers[a] == old(rrBuffers)[a]
        invariant coherenceQueue == old(coherenceQueue)
      {
        assert addresses[..i + 1] == addresses[..i] + [addresses[i]];
        rrBuffers := rrBuffers[addresses[i] := []];
        i := i + 1;
      }
      assert addresses[..i] == addresses;
    }

    /** `_parse_hr_data(data, address)`; `now` is `time.time()`. The RR
        intervals of the payload are appended to the device's buffer in
        payload order, and the reading's coherence is that of the buffer
        afterwards. A failed parse changes nothing. */
    method ParseHrData(data: seq<byte>, address: string, now: real, sqrt: real -> real)
      returns (r: ParseOutcome)
      requires Valid() && IsSqrt(sqrt)
      modifies this
      ensures Valid()
      ensures coherenceQueue == old(coherenceQueue)
      ensures ParseEffect(old(rrBuffers), rrBuffers, data, address, now, sqrt, r)
      ensures r.Parsed? <==> |data| >= 2 && |data| >= RrOffset(data[0]) && address in old(rrBuffers)
    {
      if |data| < 2 {
        return TooShort;
      }
      var flags := data[0];
      var hr: nat;
      var rrOffset: nat;
      if !HeartRateIs16Bit(flags) {
        hr := data[1];
        rrOffset := 2;
      } else {
        if |data| < 3 {
          return Raised(TruncatedHeartRate);
        }
        hr := Le16(data[1], data[2]);
        rrOffset := 3;
      }
      // The source raises KeyError at the first use of the buffer; nothing
      // has been appended by then.
      if address !in rrBuffers {
        return Raised(UnknownDevice);
      }
      var rrIntervals: seq<real> := [];
      if RrPresent(flags) {
        rrIntervals := AppendRrFields(data, rrOffset, address);
      } else {
        assert old(rrBuffers)[address] + rrIntervals == old(rrBuffers)[address];
      }
      var coherence := Coherence(rrBuffers[address], sqrt);
      r := Parsed(Reading(DeviceTag(address), hr, |rrIntervals|, coherence, now));
    }

    /** The RR loop of `_parse_hr_data`: reads the RR fields from `offset`
        on and appends each, converted to milliseconds, to the device's
        buffer as soon as it is read. */
    method AppendRrFields(data: seq<byte>, offset: nat, address: string) returns (rrIntervals: seq<real>)
      requires Valid() && address in rrBuffers && offset <= |data|
      modifies this
      ensures Valid()
      ensures rrIntervals == RrIntervals(data, offset)
      ensures rrBuffers == old(rrBuffers)[address := BoundedDeque.Window(old(rrBuffers)[address] + rrIntervals, MaxRr)]
      ensures coherenceQueue == old(coherenceQueue)
    {
      rrIntervals := [];
      var rrOffset := offset;
      var buffer := rrBuffers[address];
      ghost var before := buffer;
      assert before + rrIntervals == before;
      while rrOffset + 1 < |data|
        invariant offset <= rrOffset <= |data|
        invariant rrIntervals + RrIntervals(data, rrOffset) == RrIntervals(data, offset)
        invariant |buffer| <= MaxRr && buffer == BoundedDeque.Window(before + rrIntervals, MaxRr)
        invariant rrBuffers == old(rrBuffers)[address := buffer]
        invariant coherenceQueue == old(coherenceQueue)
        decreases |data| - rrOffset
      {
        var rrMs := RrMs(Le16(data[rrOffset], data[rrOffset + 1]));
        var later := RrIntervals(data, rrOffset + 2);
        assert RrIntervals(data, rrOffset) == [rrMs] + later;
        assert rrIntervals + ([rrMs] + later) == (rrIntervals + [rrMs]) + later;
        BoundedDeque.WindowOfAppend(before + rrIntervals, rrMs, MaxRr);
        assert before + (rrIntervals + [rrMs]) == (before + rrIntervals) + [rrMs];
        rrIntervals := rrIntervals + [rrMs];
        buffer := BoundedDeque.Append(buffer, rrMs, MaxRr);
        rrBuffers := rrBuffers[address := buffer];
        rrOffset := rrOffset + 2;
      }
      assert rrIntervals + [] == rrIntervals;
    }

    /** The notification handler of `_monitor_device`: a parsed reading is
        put on the coherence queue. */
    method OnNotification(address: string, data: seq<byte>, now: real, sqrt: real -> real)
      returns (r: ParseOutcome)
      requires Valid() && IsSqrt(sqrt)
      modifies this
      ensures Valid()
      ensures ParseEffect(old(rrBuffers), rrBuffers, data, address, now, sqrt, r)
      ensures r.Parsed? <==> |data| >= 2 && |data| >= RrOffset(data[0]) && address in old(rrBuffers)
      ensures r.Parsed? ==> coherenceQueue == old(coherenceQueue) + [Sample(r.reading)]
      ensures !r.Parsed? ==> coherenceQueue == old(coherenceQueue)
    {
      r := ParseHrData(data, address, now, sqrt);
      if r.Parsed? {
        coherenceQueue := coherenceQueue + [Sample(r.reading)];
      }
    }

    /** The `except` branch of `_monitor_device`: an error record with
        coherence 0 is queued for the device. */
    method ReportDeviceError(address: string, message: string)
      modifies this
      ensures coherenceQueue == old(coherenceQueue) + [DeviceError(DeviceTag(address), message, 0.0)]
      ensures rrBuffers == old(rrBuffers)
    {
      coherenceQueue := coherenceQueue + [DeviceError(DeviceTag(address), message, 0.0)];
    }

    /** `get_all_coherence`: drains the queue, keeping readings in FIFO
        order and dropping error records. */
    method GetAllCoherence() returns (readings: seq<Reading>)
      modifies this
      ensures readings == Readings(old(coherenceQueue))
      ensures coherenceQueue == []
      ensures rrBuffers == old(rrBuffers)
    {
      readings := [];
      while coherenceQueue != []
        invariant readings + Readings(coherenceQueue) == Readings(old(coherenceQueue))
        invariant rrBuffers == old(rrBuffers)
        decreases |coherenceQueue|
      {
        var item := coherenceQueue[0];
        coherenceQueue := coherenceQueue[1..];
        if item.Sample? {
          readings := readings + [item.reading];
        }
      }
    }

    /** The filtering and sorting of `scan_devices`, over the devices the
        scanner discovered. */
    method ScanDevices(discovered: seq<Advertisement>) returns (found: seq<FoundDevice>)
      ensures StrongestFirst(found)
      ensures multiset(found) == multiset(Matching(discovered))
      ensures forall v :: WithRssi(found, v) == WithRssi(Matching(discovered), v)
      ensures forall f :: f in found ==> MatchesPattern(f.name)
    {
      var hrvDevices: seq<FoundDevice> := [];
      var i := 0;
      while i < |discovered|
        invariant 0 <= i <= |discovered|
        invariant hrvDevices == Matching(discovered[..i])
      {
        var d := discovered[i];
        MatchingAppend(discovered[..i], [d]);
        MatchingOne(d);
        assert discovered[..i + 1] == discovered[..i] + [d];
        if d.name.Some? && d.name.value != "" && MatchesPattern(d.name.value) {
          hrvDevices := hrvDevices + [Found(d)];
        }
        i := i + 1;
      }
      assert discovered[..i] == discovered;
      found := SortByRssi(hrvDevices);
      SortByRssiSorts(hrvDevices);
      forall v {
        SortByRssiStable(hrvDevices, v);
      }
      MatchingOnlyMatches(discovered);
    }
  }

  lemma {:induction false} MatchingOnlyMatches(devices: seq<Advertisement>)
    ensures forall f :: f in multiset(Matching(devices)) ==> MatchesPattern(f.name)
  {
    if devices != [] {
      MatchingOnlyMatches(devices[1..]);
    }
  }
}
