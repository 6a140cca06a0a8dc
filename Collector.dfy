/** The bit collector of `rng_collector.py`: two bounded bit buffers (the
    experiment buffer and the baseline buffer), a mode that routes each new
    bit to one of them, an append-only list of event markers, and the
    statistics computed over whichever buffer the mode makes active. */
module Collector {
  import opened Common
  import BoundedDeque

  /** `deque(maxlen=100000)` for both buffers. */
  const Capacity: nat := 100000
  /** Below this many bits `get_stats` reports the neutral placeholder. */
  const SmallSample: nat := 10
  /** Both buffers need this many bits before a comparison is reported. */
  const ComparisonMinimum: nat := 100
  /** The mode name that routes bits to the baseline buffer; any other
      mode string routes them to the experiment buffer. */
  const BaselineMode: string := "baseline"

  /** One `mark_event` record; `coherence` is whatever the caller attached. */
  datatype Marker<S> = Marker(timestamp: real, bitIndex: nat, event: string, coherence: Option<S>)

  /** The dictionary returned by `get_stats`. */
  datatype Stats = Stats(mean: real, zScore: real, count: nat, markers: nat, mode: string)

  /** The dictionary returned by `get_baseline_comparison`. */
  datatype Comparison = Comparison(
    baselineMean: real, experimentMean: real, effectPercent: real,
    baselineBits: nat, experimentBits: nat)

  /** `get_stats` divides by the length of an empty window (Python's
      `ZeroDivisionError`); only a negative `window` can cause it. */
  datatype StatsError = ZeroDivision

  /** `list(bits)[-window:] if bit_count > window else list(bits)`. */
  function RecentBits(active: seq<Bit>, window: int): (r: seq<Bit>)
    ensures window >= 1 ==> r == BoundedDeque.Window(active, window)
    ensures window == 0 ==> r == active
  {
    if |active| > window then SliceFrom(active, -window) else active
  }

  /** The fair-coin z-score `(mean - 0.5) / (0.5 / sqrt(n))`. */
  function ZScore(mean: real, n: nat, sqrt: real -> real): (z: real)
    requires IsSqrt(sqrt) && n > 0
    ensures z > 0.0 <==> mean > 0.5
    ensures z < 0.0 <==> mean < 0.5
    ensures z == 0.0 <==> mean == 0.5
  {
    var root := sqrt(n as real);
    assert root > 0.0;
    var scale := 0.5 / root;
    DivisionKeepsSign(mean - 0.5, scale);
    (mean - 0.5) / scale
  }

  lemma DivisionKeepsSign(a: real, d: real)
    requires d > 0.0
    ensures a / d > 0.0 <==> a > 0.0
    ensures a / d < 0.0 <==> a < 0.0
    ensures a / d == 0.0 <==> a == 0.0
  {
    var q := a / d;
    assert q * d == a;
    if q > 0.0 {
      assert q * d > 0.0;
    } else if q < 0.0 {
      assert q * d < 0.0;
    }
  }

  /** `get_stats` over the active buffer `active`. */
  function ComputeStats(active: seq<Bit>, markerCount: nat, mode: string, window: int,
                        sqrt: real -> real): (r: Result<Stats, StatsError>)
    requires IsSqrt(sqrt)
    // the count and marker count are reported whatever the window
    ensures r.Success? ==>
      r.value.count == |active| && r.value.markers == markerCount && r.value.mode == mode
    ensures r.Success? ==> 0.0 <= r.value.mean <= 1.0
    // small samples give the neutral placeholder, whatever the bits are
    ensures |active| < SmallSample ==> r == Success(Stats(0.5, 0.0, |active|, markerCount, mode))
    // only a negative window at least as long as the buffer empties the sample
    ensures r.Failure? <==> |active| >= SmallSample && -window >= |active|
    // otherwise the mean is over the last `window` bits
    ensures |active| >= SmallSample && window >= 1 ==>
      r.Success? && r.value.mean == Mean(BoundedDeque.Window(active, window))
    // the z-score has the sign of the mean's deviation from one half
    ensures r.Success? ==>
      && (r.value.zScore > 0.0 <==> r.value.mean > 0.5)
      && (r.value.zScore < 0.0 <==> r.value.mean < 0.5)
      && (r.value.zScore == 0.0 <==> r.value.mean == 0.5)
  {
    var count := |active|;
    if count < SmallSample then
      Success(Stats(0.5, 0.0, count, markerCount, mode))
    else
      var recent := RecentBits(active, window);
      if |recent| == 0 then
        Failure(ZeroDivision)
      else
        var mean := Mean(recent);
        Success(Stats(mean, ZScore(mean, |recent|, sqrt), count, markerCount, mode))
  }

  /** `get_baseline_comparison` over the two buffers. */
  function Compare(baseline: seq<Bit>, experiment: seq<Bit>): (r: Option<Comparison>)
    ensures r.None? <==> |baseline| < ComparisonMinimum || |experiment| < ComparisonMinimum
    ensures r.Some? ==>
      && r.value.baselineMean == Mean(baseline)
      && r.value.experimentMean == Mean(experiment)
      && r.value.baselineBits == |baseline|
      && r.value.experimentBits == |experiment|
      && -200.0 <= r.value.effectPercent <= 200.0
  {
    if |baseline| < ComparisonMinimum || |experiment| < ComparisonMinimum then
      None
    else
      var baselineMean := Mean(baseline);
      var experimentMean := Mean(experiment);
      var effect := (experimentMean - baselineMean) / 0.5 * 100.0;
      Some(Comparison(baselineMean, experimentMean, effect, |baseline|, |experiment|))
  }

  /** The effect is the mean difference measured in percent of the fair-coin
      mean 0.5: it has the sign of the difference, and an all-zero baseline
      against an all-one experiment reaches the extreme +200. */
  lemma EffectMeasuresMeanDifference(baseline: seq<Bit>, experiment: seq<Bit>)
    requires |baseline| >= ComparisonMinimum && |experiment| >= ComparisonMinimum
    ensures var c := Compare(baseline, experiment).value;
      && (c.effectPercent > 0.0 <==> c.experimentMean > c.baselineMean)
      && (c.effectPercent < 0.0 <==> c.experimentMean < c.baselineMean)
      && (c.effectPercent == 0.0 <==> c.experimentMean == c.baselineMean)
  {
  }

  lemma {:induction false} AllZeroBaselineAllOneExperiment(baseline: seq<Bit>, experiment: seq<Bit>)
    requires |baseline| >= ComparisonMinimum && |experiment| >= ComparisonMinimum
    requires forall i :: 0 <= i < |baseline| ==> baseline[i] == 0
    requires forall i :: 0 <= i < |experiment| ==> experiment[i] == 1
    ensures Compare(baseline, experiment).value.effectPercent == 200.0
  {
    SumConstant(baseline, 0);
    SumConstant(experiment, 1);
  }

  /** The collector object. `bits` is the experiment buffer. */
  class RngCollector<S> {
    var bits: seq<Bit>
    var baselineBits: seq<Bit>
    var running: bool
    var markers: seq<Marker<S>>
    var mode: string

    /** Both buffers stay within their `maxlen`. */
    ghost predicate Valid()
      reads this
    {
      |bits| <= Capacity && |baselineBits| <= Capacity
    }

    constructor ()
      ensures Valid()
      ensures bits == [] && baselineBits == [] && markers == []
      ensures !running && mode == "experiment"
    {
      bits := [];
      baselineBits := [];
      running := false;
      markers := [];
      mode := "experiment";
    }

    /** `start`: sets the run flag and the mode (the thread is not modelled). */
    method Start(newMode: string)
      modifies this
      ensures running && mode == newMode
      ensures bits == old(bits) && baselineBits == old(baselineBits) && markers == old(markers)
    {
      running := true;
      mode := newMode;
    }

    /** `stop`: clears the run flag (the join is not modelled). */
    method Stop()
      modifies this
      ensures !running
      ensures mode == old(mode) && markers == old(markers)
      ensures bits == old(bits) && baselineBits == old(baselineBits)
    {
      running := false;
    }

    /** One iteration of the producer loop `_collect`: `bit` is the value of
        `secrets.randbits(1)`. Only the buffer the mode selects changes, and
        it keeps the last `Capacity` bits produced for it. */
    method CollectStep(bit: Bit)
      requires Valid()
      modifies this
      ensures Valid()
      ensures mode == BaselineMode ==>
        baselineBits == BoundedDeque.Window(old(baselineBits) + [bit], Capacity) && bits == old(bits)
      ensures mode != BaselineMode ==>
        bits == BoundedDeque.Window(old(bits) + [bit], Capacity) && baselineBits == old(baselineBits)
      ensures mode == old(mode) && running == old(running) && markers == old(markers)
    {
      if mode == BaselineMode {
        baselineBits := BoundedDeque.Append(baselineBits, bit, Capacity);
      } else {
        bits := BoundedDeque.Append(bits, bit, Capacity);
      }
    }

    /** `mark_event`: appends one marker stamped with the length of the
        experiment buffer, whatever the mode; `now` is `time.time()`. */
    method MarkEvent(event: string, coherence: Option<S>, now: real)
      modifies this
      ensures markers == old(markers) + [Marker(now, |bits|, event, coherence)]
      ensures bits == old(bits) && baselineBits == old(baselineBits)
      ensures mode == old(mode) && running == old(running)
    {
      markers := markers + [Marker(now, |bits|, event, coherence)];
    }

    /** `get_stats(window)`: the buffer the mode makes active is analysed. */
    function GetStats(window: int, sqrt: real -> real): (r: Result<Stats, StatsError>)
      reads this
      requires IsSqrt(sqrt)
      ensures r.Success? ==> r.value.count == (if mode == BaselineMode then |baselineBits| else |bits|)
      ensures r.Success? ==> r.value.markers == |markers| && r.value.mode == mode
    {
      ComputeStats(if mode == BaselineMode then baselineBits else bits, |markers|, mode, window, sqrt)
    }

    /** `get_baseline_comparison`, over the whole of both buffers. */
    function GetBaselineComparison(): (r: Option<Comparison>)
      reads this
      ensures r.Some? ==> r.value.baselineBits == |baselineBits| && r.value.experimentBits == |bits|
      ensures r.None? <==> |baselineBits| < ComparisonMinimum || |bits| < ComparisonMinimum
    {
      Compare(baselineBits, bits)
    }
  }
}
