/** The software-defined-radio generator of `sdr_rng.py`: extraction of the
    least-significant bits of signed 8-bit I/Q samples, their packing into
    bytes, the SHA-256 whitening loop of `SDRRNG.get_random_bytes`, and the
    module-level fallback to the software generator. The radio, the clock
    and SHA-256 (FIPS 180-4) are parameters: oracles whose internals are
    not modelled. */
module SdrRng {
  import opened Common

  /** A quantised I or Q sample (`numpy.int8`). */
  type int8 = x: int | -128 <= x < 128

  /** A SHA-256 digest: always 32 bytes. */
  type Digest = s: seq<byte> | |s| == DigestSize witness seq(32, i => 0)

  const DigestSize: nat := 32

  /** Default `max_cycles` of `SDRRNG.get_random_bytes`. */
  const DefaultMaxCycles: int := 16

  // ---------------------------------------------------------------------
  // Bit extraction and packing (`_collect_raw_bytes` after quantisation)

  /** The byte that stores `x` in two's complement. */
  function TwosComplement(x: int8): (b: byte)
    ensures b % 2 == x % 2
  {
    if x < 0 then x + 256 else x
  }

  /** `x & 1` on an int8: the low bit of its two's-complement byte. */
  function Lsb(x: int8): (r: Bit)
    ensures r == x % 2
  {
    TwosComplement(x) % 2
  }

  function LsbBits(xs: seq<int8>): (r: seq<Bit>)
    ensures |r| == |xs|
    ensures forall k :: 0 <= k < |xs| ==> r[k] == Lsb(xs[k])
  {
    seq(|xs|, k requires 0 <= k < |xs| => Lsb(xs[k]))
  }

  /** `bits[0::2] = a; bits[1::2] = b`. */
  function Interleave(a: seq<Bit>, b: seq<Bit>): (r: seq<Bit>)
    requires |a| == |b|
    ensures |r| == 2 * |a|
    ensures forall k :: 0 <= k < |a| ==> r[2 * k] == a[k] && r[2 * k + 1] == b[k]
  {
    seq(2 * |a|, j requires 0 <= j < 2 * |a| => if j % 2 == 0 then a[j / 2] else b[j / 2])
  }

  /** `pad = (-bits.size) % 8` zero bits (Python's `%` and Dafny's agree
      here: both are non-negative for a positive divisor). */
  function PadToByte(bits: seq<Bit>): (r: seq<Bit>)
    ensures |r| % 8 == 0 && |bits| <= |r| < |bits| + 8
    ensures r[..|bits|] == bits
    ensures forall k :: |bits| <= k < |r| ==> r[k] == 0
  {
    bits + seq((-|bits|) % 8, k => 0)
  }

  function Pow2(n: nat): (p: nat)
    ensures p >= 1
  {
    if n == 0 then 1 else 2 * Pow2(n - 1)
  }

  /** The number a bit sequence denotes, most significant bit first. */
  function BitsValue(b: seq<Bit>): (v: nat)
    ensures v < Pow2(|b|)
  {
    if b == [] then 0 else 2 * BitsValue(b[..|b| - 1]) + b[|b| - 1]
  }

  /** The low `n` bits of `x`, most significant first. */
  function ValueBits(x: nat, n: nat): (b: seq<Bit>)
    ensures |b| == n
  {
    if n == 0 then [] else ValueBits(x / 2, n - 1) + [x % 2]
  }

  lemma {:induction false} ValueBitsOfBitsValue(b: seq<Bit>)
    ensures ValueBits(BitsValue(b), |b|) == b
  {
    if b != [] {
      var init := b[..|b| - 1];
      ValueBitsOfBitsValue(init);
      var v := BitsValue(b);
      assert v / 2 == BitsValue(init) && v % 2 == b[|b| - 1];
      assert b == init + [b[|b| - 1]];
    }
  }

  /** The first bit carries the highest weight. */
  lemma {:induction false} BitsValueHead(b: seq<Bit>)
    requires b != []
    ensures BitsValue(b) == (if b[0] == 1 then Pow2(|b| - 1) else 0) + BitsValue(b[1..])
  {
    if |b| > 1 {
      var init := b[..|b| - 1];
      var tail := b[1..];
      BitsValueHead(init);
      assert init[1..] == tail[..|tail| - 1] && tail[|tail| - 1] == b[|b| - 1] && init[0] == b[0];
    }
  }

  /** Eight bits, most significant first, as one byte (`numpy.packbits`
      bit order). */
  function ByteOf(b: seq<Bit>): (x: byte)
    requires |b| == 8
    ensures x >= 128 <==> b[0] == 1
    ensures x % 2 == b[7]
  {
    BitsValueHead(b);
    assert Pow2(7) == 128;
    assert BitsValue(b[1..]) < 128;
    assert BitsValue(b) == 2 * BitsValue(b[..7]) + b[7];
    BitsValue(b)
  }

  /** The eight bits of a byte, most significant first. */
  function BitsOf(x: byte): (b: seq<Bit>)
    ensures |b| == 8
  {
    ValueBits(x, 8)
  }

  lemma ByteBitsRoundTrip(b: seq<Bit>)
    requires |b| == 8
    ensures BitsOf(ByteOf(b)) == b
  {
    ValueBitsOfBitsValue(b);
  }

  /** `numpy.packbits` on a bit sequence whose length is a multiple of 8. */
  function PackBits(bits: seq<Bit>): (r: seq<byte>)
    requires |bits| % 8 == 0
    ensures |r| == |bits| / 8
  {
    if bits == [] then [] else [ByteOf(bits[..8])] + PackBits(bits[8..])
  }

  /** `numpy.unpackbits`: the inverse of packing. */
  function UnpackBits(bytes: seq<byte>): (r: seq<Bit>)
    ensures |r| == 8 * |bytes|
  {
    if bytes == [] then [] else BitsOf(bytes[0]) + UnpackBits(bytes[1..])
  }

  lemma {:induction false} UnpackPack(bits: seq<Bit>)
    requires |bits| % 8 == 0
    ensures UnpackBits(PackBits(bits)) == bits
    decreases |bits|
  {
    if bits != [] {
      ByteBitsRoundTrip(bits[..8]);
      UnpackPack(bits[8..]);
      assert bits == bits[..8] + bits[8..];
    }
  }

  /** The raw block for samples `i`, `q` (equally many): each sample's two
      low bits, I first, zero-padded and packed. */
  function RawBlock(i: seq<int8>, q: seq<int8>): (r: seq<byte>)
    requires |i| == |q|
    ensures |r| == (2 * |i| + 7) / 8
  {
    PackBits(PadToByte(Interleave(LsbBits(i), LsbBits(q))))
  }

  /** The raw block has `ceil(2N/8)` bytes; unpacking it gives the I,Q low
      bits interleaved, followed by zero padding only. */
  lemma RawBlockLayout(i: seq<int8>, q: seq<int8>)
    requires |i| == |q|
    ensures |RawBlock(i, q)| == (2 * |i| + 7) / 8
    ensures var bits := UnpackBits(RawBlock(i, q));
      && 2 * |i| <= |bits|
      && (forall k :: 0 <= k < |i| ==> bits[2 * k] == Lsb(i[k]) && bits[2 * k + 1] == Lsb(q[k]))
      && (forall k :: 2 * |i| <= k < |bits| ==> bits[k] == 0)
  {
    var padded := PadToByte(Interleave(LsbBits(i), LsbBits(q)));
    UnpackPack(padded);
    assert forall k :: 0 <= k < 2 * |i| ==> padded[k] == padded[..2 * |i|][k];
  }

  /** The raw block is empty exactly when there are no samples. */
  lemma RawBlockEmpty(i: seq<int8>, q: seq<int8>)
    requires |i| == |q|
    ensures RawBlock(i, q) == [] <==> |i| == 0
  {
    RawBlockLayout(i, q);
  }

  // ---------------------------------------------------------------------
  // The whitening loop (`SDRRNG.get_random_bytes`)

  /** The RuntimeErrors of `SDRRNG.get_random_bytes`, plus an exception
      raised by the radio while sampling, and `struct.error` for a counter
      that no longer fits in 32 bits. */
  datatype SdrError = SamplingFailed | NoRawBytes | CounterOverflow | NotEnoughOutput

  /** `x` as `n` big-endian bytes, `0 <= x < 256^n`. */
  function BigEndian(x: nat, n: nat): (r: seq<byte>)
    ensures |r| == n
  {
    if n == 0 then [] else BigEndian(x / 256, n - 1) + [x % 256]
  }

  /** The message hashed in one cycle: the millisecond clock masked to 64
      bits (`struct.pack('>Q', …)`), the counter (`'>I'`), the raw block. */
  function HashInput(clockMs: int, counter: nat, raw: seq<byte>): (r: seq<byte>)
    requires counter < 0x1_0000_0000
    ensures |r| == 12 + |raw| && r[12..] == raw
  {
    BigEndian(clockMs % 0x1_0000_0000_0000_0000, 8) + BigEndian(counter, 4) + raw
  }

  /** The number `n` big-endian bytes can hold: `256^n`. */
  function Pow256(n: nat): (p: nat)
    ensures p >= 1
  {
    if n == 0 then 1 else 256 * Pow256(n - 1)
  }

  /** The number a big-endian byte string denotes (`struct.unpack('>…')`). */
  function BigEndianValue(b: seq<byte>): (v: nat)
    ensures v < Pow256(|b|)
  {
    if b == [] then 0 else 256 * BigEndianValue(b[..|b| - 1]) + b[|b| - 1]
  }

  /** Packing a value that fits in `n` bytes and unpacking it gives it back. */
  lemma {:induction false} BigEndianRoundTrip(x: nat, n: nat)
    requires x < Pow256(n)
    ensures BigEndianValue(BigEndian(x, n)) == x
  {
    if n > 0 {
      var b := BigEndian(x, n);
      BigEndianRoundTrip(x / 256, n - 1);
      assert b[..|b| - 1] == BigEndian(x / 256, n - 1);
    }
  }

  /** The hashed message carries the clock modulo 2^64 in its first eight
      bytes and the counter in the next four, both recoverable, then the
      raw block. */
  lemma HashInputFields(clockMs: int, counter: nat, raw: seq<byte>)
    requires counter < 0x1_0000_0000
    ensures var m := HashInput(clockMs, counter, raw);
      && BigEndianValue(m[..8]) == clockMs % 0x1_0000_0000_0000_0000
      && BigEndianValue(m[8..12]) == counter
      && m[12..] == raw
  {
    assert Pow256(4) == 0x1_0000_0000;
    assert Pow256(8) == 0x1_0000_0000 * Pow256(4);
    var m := HashInput(clockMs, counter, raw);
    var clock := BigEndian(clockMs % 0x1_0000_0000_0000_0000, 8);
    var count := BigEndian(counter, 4);
    assert m[..8] == clock && m[8..12] == count;
    BigEndianRoundTrip(clockMs % 0x1_0000_0000_0000_0000, 8);
    BigEndianRoundTrip(counter, 4);
  }

  /** The cycle with counter `c` goes wrong: the radio raises, returns an
      empty block, or the counter does not fit `'>I'`. */
  predicate BadCycle(collect: nat -> Option<seq<byte>>, c: nat)
  {
    collect(c).None? || collect(c).value == [] || c >= 0x1_0000_0000
  }

  function CycleError(collect: nat -> Option<seq<byte>>, c: nat): SdrError
  {
    if collect(c).None? then SamplingFailed
    else if collect(c).value == [] then NoRawBytes
    else CounterOverflow
  }

  /** The first cycle below `k` that goes wrong, if any. */
  function FirstBadCycle(collect: nat -> Option<seq<byte>>, k: nat): (r: Option<nat>)
    ensures r.None? <==> forall c :: 0 <= c < k ==> !BadCycle(collect, c)
    ensures r.Some? ==>
      && r.value < k && BadCycle(collect, r.value)
      && forall c :: 0 <= c < r.value ==> !BadCycle(collect, c)
  {
    if k == 0 then None
    else
      match FirstBadCycle(collect, k - 1)
      case Some(c) => Some(c)
      case None => if BadCycle(collect, k - 1) then Some(k - 1) else None
  }

  /** The digests of cycles `0 .. k-1`, concatenated in counter order. */
  function Stream(collect: nat -> Option<seq<byte>>, clockMs: nat -> int,
                  sha256: seq<byte> -> Digest, k: nat): (r: seq<byte>)
    requires forall c :: 0 <= c < k ==> !BadCycle(collect, c)
    ensures |r| == DigestSize * k
  {
    if k == 0 then []
    else
      assert !BadCycle(collect, k - 1);
      Stream(collect, clockMs, sha256, k - 1)
         + sha256(HashInput(clockMs(k - 1), k - 1, collect(k - 1).value))
  }

  /** A bad cycle after good ones is the first bad cycle of any longer run. */
  lemma {:induction false} FirstBadCycleIs(collect: nat -> Option<seq<byte>>, c: nat, k: nat)
    requires c < k && BadCycle(collect, c) && FirstBadCycle(collect, c).None?
    ensures FirstBadCycle(collect, k) == Some(c)
    decreases k
  {
    if c < k - 1 {
      FirstBadCycleIs(collect, c, k - 1);
    }
  }

  /** Cycles needed to reach `nbytes` bytes of digests. */
  function CyclesNeeded(nbytes: int): nat
  {
    if nbytes <= 0 then 0 else (nbytes + DigestSize - 1) / DigestSize
  }

  /** `CyclesNeeded(nbytes)` digests are enough and one fewer is not. */
  lemma CyclesNeededBounds(nbytes: int)
    ensures nbytes <= 0 ==> CyclesNeeded(nbytes) == 0
    ensures nbytes > 0 ==>
      DigestSize * (CyclesNeeded(nbytes) - 1) < nbytes <= DigestSize * CyclesNeeded(nbytes)
  {
  }

  /** The most cycles the loop may run: the check `cycles > max_cycles`
      comes after a cycle, so at least one cycle always runs. */
  function CycleLimit(maxCycles: int): nat
  {
    if maxCycles >= 0 then maxCycles + 1 else 1
  }

  /** What `get_random_bytes(nbytes, max_cycles)` yields, stated without
      the loop: the first failing cycle among those that run decides the
      error; otherwise the output is the first `nbytes` bytes of the digest
      stream, provided the cycle limit allows enough cycles. */
  function Whitened(nbytes: int, maxCycles: int, collect: nat -> Option<seq<byte>>,
                    clockMs: nat -> int, sha256: seq<byte> -> Digest): (r: Result<seq<byte>, SdrError>)
    ensures nbytes <= 0 ==> r == Success([])
  {
    var needed := CyclesNeeded(nbytes);
    var limit := CycleLimit(maxCycles);
    var runs := if needed <= limit then needed else limit;
    match FirstBadCycle(collect, runs)
    case Some(c) => Failure(CycleError(collect, c))
    case None =>
      if needed > limit then Failure(NotEnoughOutput)
      else Success(Stream(collect, clockMs, sha256, needed)[..if nbytes <= 0 then 0 else nbytes])
  }

  /** Success yields exactly `nbytes` bytes (none for `nbytes <= 0`, with
      no sampling at all), and success is possible exactly when `nbytes`
      fits in `32 * CycleLimit(max_cycles)` bytes: `32 * (max_cycles + 1)`,
      or 32 when `max_cycles < 0`, since one cycle always runs. */
  lemma WhitenedLength(nbytes: int, maxCycles: int, collect: nat -> Option<seq<byte>>,
                       clockMs: nat -> int, sha256: seq<byte> -> Digest)
    ensures var r := Whitened(nbytes, maxCycles, collect, clockMs, sha256);
      && (r.Success? ==> |r.value| == if nbytes <= 0 then 0 else nbytes)
      && (nbytes <= 0 ==> r == Success([]))
      && (r.Success? ==> nbytes <= DigestSize * CycleLimit(maxCycles))
      && ((&& nbytes <= DigestSize * CycleLimit(maxCycles)
           && forall c :: 0 <= c < CyclesNeeded(nbytes) ==> !BadCycle(collect, c))
          ==> r.Success?)
  {
  }

  /** Each further cycle only extends the stream: every output is a prefix
      of the same digest sequence, whatever `nbytes` asked for. */
  lemma {:induction false} StreamPrefix(collect: nat -> Option<seq<byte>>, clockMs: nat -> int,
                                        sha256: seq<byte> -> Digest, j: nat, k: nat)
    requires j <= k
    requires forall c :: 0 <= c < k ==> !BadCycle(collect, c)
    ensures Stream(collect, clockMs, sha256, j) == Stream(collect, clockMs, sha256, k)[..DigestSize * j]
    decreases k - j
  {
    if j < k {
      StreamPrefix(collect, clockMs, sha256, j, k - 1);
      var s := Stream(collect, clockMs, sha256, k - 1);
      assert Stream(collect, clockMs, sha256, k)[..DigestSize * (k - 1)] == s;
    }
  }

  /** One cycle of the loop: sample, pack the raw block, hash it with the
      clock and the counter. */
  method Cycle(counter: nat, collect: nat -> Option<seq<byte>>, clockMs: nat -> int,
               sha256: seq<byte> -> Digest)
    returns (step: Result<Digest, SdrError>)
    ensures BadCycle(collect, counter) ==> step == Failure(CycleError(collect, counter))
    ensures !BadCycle(collect, counter) ==>
      step == Success(sha256(HashInput(clockMs(counter), counter, collect(counter).value)))
  {
    var raw := collect(counter);
    if raw.None? {
      return Failure(SamplingFailed);
    }
    if raw.value == [] {
      return Failure(NoRawBytes);
    }
    if counter >= 0x1_0000_0000 {
      return Failure(CounterOverflow);
    }
    step := Success(sha256(HashInput(clockMs(counter), counter, raw.value)));
  }

  /** The outcome when every needed cycle runs and succeeds. */
  lemma WhitenedCompletes(nbytes: int, maxCycles: int, collect: nat -> Option<seq<byte>>,
                          clockMs: nat -> int, sha256: seq<byte> -> Digest)
    requires CyclesNeeded(nbytes) <= CycleLimit(maxCycles)
    requires FirstBadCycle(collect, CyclesNeeded(nbytes)).None?
    ensures Whitened(nbytes, maxCycles, collect, clockMs, sha256)
      == Success(Stream(collect, clockMs, sha256, CyclesNeeded(nbytes))[..if nbytes <= 0 then 0 else nbytes])
  {
  }

  /** The outcome when the cycle limit stops a loop whose cycles all succeeded. */
  lemma WhitenedRunsOut(nbytes: int, maxCycles: int, collect: nat -> Option<seq<byte>>,
                        clockMs: nat -> int, sha256: seq<byte> -> Digest)
    requires CyclesNeeded(nbytes) > CycleLimit(maxCycles)
    requires FirstBadCycle(collect, CycleLimit(maxCycles)).None?
    ensures Whitened(nbytes, maxCycles, collect, clockMs, sha256) == Failure(NotEnoughOutput)
  {
  }

  /** `SDRRNG.get_random_bytes(nbytes, max_cycles)`. `collect(c)` is the
      raw block of the cycle with counter `c` (`None` when the radio raises),
      `clockMs(c)` is `int(time.time() * 1000)` at that cycle. */
  method WhitenedBytes(nbytes: int, maxCycles: int, collect: nat -> Option<seq<byte>>,
                       clockMs: nat -> int, sha256: seq<byte> -> Digest)
    returns (r: Result<seq<byte>, SdrError>)
    ensures r == Whitened(nbytes, maxCycles, collect, clockMs, sha256)
  {
    var out: seq<byte> := [];
    var counter: nat := 0;
    var cycles: nat := 0;
    ghost var needed := CyclesNeeded(nbytes);
    ghost var limit := CycleLimit(maxCycles);
    ghost var runs := if needed <= limit then needed else limit;
    CyclesNeededBounds(nbytes);
    while |out| < nbytes
      invariant counter == cycles <= runs
      invariant FirstBadCycle(collect, cycles).None?
      invariant out == Stream(collect, clockMs, sha256, cycles)
      invariant |out| < nbytes ==> cycles < runs
      invariant |out| >= nbytes ==> cycles == needed
      decreases nbytes - |out|
    {
      var step := Cycle(counter, collect, clockMs, sha256);
      if step.Failure? {
        FirstBadCycleIs(collect, counter, runs);
        return Failure(step.error);
      }
      out := out + step.value;
      counter := counter + 1;
      cycles := cycles + 1;
      if cycles > maxCycles && |out| < nbytes {
        assert cycles == limit;
        WhitenedRunsOut(nbytes, maxCycles, collect, clockMs, sha256);
        return Failure(NotEnoughOutput);
      }
    }
    WhitenedCompletes(nbytes, maxCycles, collect, clockMs, sha256);
    r := Success(out[..if nbytes <= 0 then 0 else nbytes]);
  }

  // ---------------------------------------------------------------------
  // Module-level `get_random_bytes`

  /** `secrets.token_bytes(n)` raises `ValueError` for a negative `n`. */
  datatype FallbackError = NegativeLength

  /** `get_random_bytes(nbytes, prefer_sdr)`: the radio's output when it is
      preferred, present (`is_sdr_available`) and succeeds (`sdrOutcome` is
      what `SDRRNG(...).get_random_bytes(nbytes)` gave); otherwise the
      software generator's `tokenBytes`. */
  function GetRandomBytes(nbytes: int, preferSdr: bool, sdrAvailable: bool,
                          sdrOutcome: Result<seq<byte>, SdrError>, tokenBytes: seq<byte>)
    : (r: Result<seq<byte>, FallbackError>)
    requires nbytes >= 0 ==> |tokenBytes| == nbytes
    ensures preferSdr && sdrAvailable && sdrOutcome.Success? ==> r == Success(sdrOutcome.value)
    ensures !(preferSdr && sdrAvailable && sdrOutcome.Success?) ==>
      r == if nbytes < 0 then Failure(NegativeLength) else Success(tokenBytes)
  {
    if preferSdr && sdrAvailable && sdrOutcome.Success? then Success(sdrOutcome.value)
    else if nbytes < 0 then Failure(NegativeLength)
    else Success(tokenBytes)
  }

  /** With the radio's outcome being that of the whitening loop, the
      helper always delivers exactly `nbytes` bytes for `nbytes >= 0`:
      any radio failure falls back to the software generator. */
  lemma GetRandomBytesLength(nbytes: nat, preferSdr: bool, sdrAvailable: bool,
                             collect: nat -> Option<seq<byte>>, clockMs: nat -> int,
                             sha256: seq<byte> -> Digest, tokenBytes: seq<byte>)
    requires |tokenBytes| == nbytes
    ensures var sdr := Whitened(nbytes, DefaultMaxCycles, collect, clockMs, sha256);
      var r := GetRandomBytes(nbytes, preferSdr, sdrAvailable, sdr, tokenBytes);
      r.Success? && |r.value| == nbytes
  {
    WhitenedLength(nbytes, DefaultMaxCycles, collect, clockMs, sha256);
  }
}
