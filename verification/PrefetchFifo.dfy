/**
  The A0 copy-out model of scripts/apf_a0_prefetch_service_model.py: a fully prefetched FIFO of
  `depth` words, a host that reads one word per period, and one serialized producer that refills
  the freed slots.  The script computes with exact fractions of a memory cycle.  Here every time
  is multiplied by the BRIDGE clock frequency, which makes all of them integers and changes no
  comparison.
*/
module PrefetchTiming {
  import opened NumberTheory

  /** The four numbers the simulation depends on, in scaled units. */
  datatype Timing = Timing(words: nat, period: int, service: int, margin: int)
  {
    ghost predicate Legal() {
      0 < words && 0 < service && 0 <= margin < period
    }
  }

  /**
    When the (k+1)-th refill completes.  The producer starts it as soon as it is idle and word k
    has been read, so the recurrence is max-plus.  The depth does not occur in it.
  */
  ghost function Completion(t: Timing, k: nat): int {
    (if k == 0 then 0 else Max(Completion(t, k - 1), t.period * k)) + t.service
  }

  /** Refill w - d is word w; it must be complete `margin` before the word is read. */
  ghost predicate OnTime(t: Timing, depth: nat, w: nat) {
    w < depth || Completion(t, w - depth) <= t.period * w - t.margin
  }

  ghost predicate Safe(t: Timing, depth: nat) {
    forall w: nat :: w < t.words ==> OnTime(t, depth, w)
  }

  /** The test a reader can evaluate without running the simulation. */
  predicate SafeByFormula(t: Timing, depth: nat) {
    if t.words <= depth then true
    else if t.service <= t.period then t.service <= depth * t.period - t.margin
    else (t.words - depth) * t.service <= (t.words - 1) * t.period - t.margin
  }

  lemma {:induction false} CompletionClosedForm(t: Timing, k: nat)
    requires t.Legal()
    ensures Completion(t, k) == k * Max(t.service, t.period) + t.service
  {
    if k > 0 {
      CompletionClosedForm(t, k - 1);
      assert (k - 1) * Max(t.service, t.period) == k * Max(t.service, t.period) - Max(t.service, t.period);
      if t.service <= t.period {
        assert t.period * k == k * t.period;
      } else {
        assert t.period * k <= k * t.service by { MulAtMost(k, t.period, t.service); }
      }
    }
  }

  lemma SafeMeansFormula(t: Timing, depth: nat)
    requires t.Legal() && 0 < depth && Safe(t, depth)
    ensures SafeByFormula(t, depth)
  {
    if depth < t.words {
      assert OnTime(t, depth, depth) && OnTime(t, depth, t.words - 1);
      CompletionClosedForm(t, 0);
      CompletionClosedForm(t, t.words - 1 - depth);
    }
  }

  /** The last word is the worst one when the producer is slower than the host. */
  lemma LastWordIsWorst(service: int, period: int, margin: int, k: nat, depth: nat, rest: nat)
    requires period <= service
    requires (k + 1 + rest) * service <= (k + depth + rest) * period - margin
    ensures k * service + service <= period * (k + depth) - margin
  {
    MulAtMost(rest, period, service);
    assert (k + 1 + rest) * service == k * service + service + service * rest;
    assert (k + depth + rest) * period == period * (k + depth) + period * rest;
  }

  lemma FormulaMeansOnTime(t: Timing, depth: nat, w: nat)
    requires t.Legal() && 0 < depth && SafeByFormula(t, depth) && w < t.words
    ensures OnTime(t, depth, w)
  {
    if depth <= w {
      var k := w - depth;
      CompletionClosedForm(t, k);
      if t.service <= t.period {
        assert t.period * w == k * t.period + depth * t.period;
      } else {
        var rest := t.words - 1 - w;
        assert k + 1 + rest == t.words - depth && k + depth + rest == t.words - 1;
        LastWordIsWorst(t.service, t.period, t.margin, k, depth, rest);
      }
    }
  }

  /** The event loop's verdict as a comparison of two integers. */
  lemma SafeIffFormula(t: Timing, depth: nat)
    requires t.Legal() && 0 < depth
    ensures Safe(t, depth) <==> SafeByFormula(t, depth)
  {
    if Safe(t, depth) { SafeMeansFormula(t, depth); }
    if SafeByFormula(t, depth) {
      forall w: nat | w < t.words ensures OnTime(t, depth, w) { FormulaMeansOnTime(t, depth, w); }
    }
  }

  /** More depth never hurts. */
  lemma {:induction false} SafeMonotoneInDepth(t: Timing, shallow: nat, deep: nat)
    requires t.Legal() && 0 < shallow <= deep && Safe(t, shallow)
    ensures Safe(t, deep)
  {
    SafeIffFormula(t, shallow);
    SafeIffFormula(t, deep);
    if deep < t.words {
      MulAtMost(t.period, shallow, deep);
      MulAtMost(t.service, t.words - deep, t.words - shallow);
    }
  }

  lemma SlackGrows(fast: int, slow: int, k: nat, depth: nat)
    requires fast <= slow
    ensures fast * (k + depth) - fast * k <= slow * (k + depth) - slow * k
  {
    MulAtMost(depth, fast, slow);
    assert fast * (k + depth) - fast * k == fast * depth;
    assert slow * (k + depth) - slow * k == slow * depth;
  }

  /** A slower producer, a larger margin or a faster host never help. */
  lemma {:induction false} SafeAntitoneInStress(t: Timing, u: Timing, depth: nat)
    requires t.Legal() && u.Legal() && t.words == u.words && 0 < depth
    requires t.service <= u.service && t.margin <= u.margin && u.period <= t.period
    requires Safe(u, depth)
    ensures Safe(t, depth)
  {
    forall w: nat | w < t.words ensures OnTime(t, depth, w) {
      assert OnTime(u, depth, w);
      if depth <= w {
        var k: nat := w - depth;
        assert w == k + depth;
        CompletionSlack(t, u, k);
        SlackGrows(u.period, t.period, k, depth);
      }
    }
  }

  /** Relative to the read of word k, completion k is no later for the less stressed timing. */
  lemma {:induction false} CompletionSlack(t: Timing, u: Timing, k: nat)
    requires t.service <= u.service && u.period <= t.period
    ensures Completion(t, k) - t.period * k <= Completion(u, k) - u.period * k
  {
    if k > 0 {
      CompletionSlack(t, u, k - 1);
      assert t.period * (k - 1) == t.period * k - t.period;
      assert u.period * (k - 1) == u.period * k - u.period;
    }
  }

  // ------------------------------------------------------------------------------------------
  // Adversarial dominance
  // ------------------------------------------------------------------------------------------

  /** One behaviour of the real interface: read times of all words, start and completion of each refill. */
  datatype Trace = Trace(readTimes: seq<int>, starts: seq<int>, completions: seq<int>)

  ghost predicate GapAfter(t: Timing, tr: Trace, i: nat)
    requires i + 1 < |tr.readTimes|
  {
    tr.readTimes[i] + t.period <= tr.readTimes[i + 1]
  }

  /** The host never reads two words closer together than one period. */
  ghost predicate SpacedReads(t: Timing, tr: Trace) {
    |tr.readTimes| == t.words &&
    forall i: nat :: i + 1 < t.words ==> GapAfter(t, tr, i)
  }

  /** When refill k can start: the producer has finished refill k-1 and word k has left the FIFO. */
  ghost function Ready(tr: Trace, k: nat): int
    requires k < |tr.readTimes| && k <= |tr.completions|
  {
    if k == 0 then tr.readTimes[0] else Max(tr.completions[k - 1], tr.readTimes[k])
  }

  /** A single work-conserving producer whose every word takes at most the service bound. */
  ghost predicate BoundedProducer(t: Timing, depth: nat, tr: Trace)
    requires |tr.readTimes| == t.words
  {
    |tr.starts| == |tr.completions| == (if depth < t.words then t.words - depth else 0) &&
    forall k: nat :: k < |tr.starts| && k < t.words ==>
      tr.starts[k] == Ready(tr, k) && tr.starts[k] <= tr.completions[k] <= tr.starts[k] + t.service
  }

  ghost predicate LegalTrace(t: Timing, depth: nat, tr: Trace) {
    SpacedReads(t, tr) && BoundedProducer(t, depth, tr)
  }

  /** Every refilled word is present `margin` before it is read. */
  ghost predicate MeetsDeadlines(t: Timing, depth: nat, tr: Trace)
    requires LegalTrace(t, depth, tr)
  {
    forall w: nat :: depth <= w < t.words ==> tr.completions[w - depth] <= tr.readTimes[w] - t.margin
  }

  lemma {:induction false} ReadsApart(t: Timing, tr: Trace, i: nat, j: nat)
    requires SpacedReads(t, tr) && i <= j < t.words
    ensures tr.readTimes[i] + t.period * (j - i) <= tr.readTimes[j]
    decreases j - i
  {
    if i < j {
      ReadsApart(t, tr, i, j - 1);
      assert t.period * (j - i) == t.period * (j - 1 - i) + t.period;
      var m := j - 1;
      assert GapAfter(t, tr, m);
    }
  }

  lemma CompletionStep(t: Timing, m: nat, gap: int)
    requires t.period <= gap
    ensures Completion(t, m + 1) - t.period * (m + 1) >= t.service
    ensures Completion(t, m + 1) - t.period * (m + 1) >= Completion(t, m) - t.period * m - gap + t.service
  {
    assert t.period * (m + 1) == t.period * m + t.period;
    assert Completion(t, m + 1) == Max(Completion(t, m), t.period * (m + 1)) + t.service;
  }

  /** The induction behind dominance: measured from the read of word k, no refill is later than in the model. */
  lemma {:induction false} CompletionDominated(t: Timing, depth: nat, tr: Trace, k: nat)
    requires t.Legal() && 0 < depth && LegalTrace(t, depth, tr) && k + depth < t.words
    ensures tr.completions[k] - tr.readTimes[k] <= Completion(t, k) - t.period * k
  {
    assert tr.starts[k] == Ready(tr, k) && tr.completions[k] <= tr.starts[k] + t.service;
    if k > 0 {
      var m: nat := k - 1;
      CompletionDominated(t, depth, tr, m);
      assert GapAfter(t, tr, m);
      CompletionStep(t, m, tr.readTimes[k] - tr.readTimes[m]);
    }
  }

  lemma SafeDominates(t: Timing, depth: nat, tr: Trace)
    requires t.Legal() && 0 < depth && LegalTrace(t, depth, tr) && Safe(t, depth)
    ensures MeetsDeadlines(t, depth, tr)
  {
    forall w: nat | depth <= w < t.words ensures tr.completions[w - depth] <= tr.readTimes[w] - t.margin {
      assert OnTime(t, depth, w);
      var k := w - depth;
      CompletionDominated(t, depth, tr, k);
      ReadsApart(t, tr, k, w);
      assert t.period * w == t.period * k + t.period * (w - k);
    }
  }

  /** The trace the script simulates: slowest producer, fastest host. */
  ghost function ExtremalTrace(t: Timing, depth: nat): (tr: Trace)
    requires t.Legal() && 0 < depth
  {
    var refills: nat := if depth < t.words then t.words - depth else 0;
    Trace(seq(t.words, i requires 0 <= i => t.period * i),
          seq(refills, k requires 0 <= k => Completion(t, k) - t.service),
          seq(refills, k requires 0 <= k => Completion(t, k)))
  }

  lemma ExtremalTraceIsLegal(t: Timing, depth: nat)
    requires t.Legal() && 0 < depth
    ensures LegalTrace(t, depth, ExtremalTrace(t, depth))
  {
    var tr := ExtremalTrace(t, depth);
    forall i: nat | i + 1 < t.words ensures GapAfter(t, tr, i) {
      assert t.period * (i + 1) == t.period * i + t.period;
    }
  }

  lemma ExtremalTraceAt(t: Timing, depth: nat, w: nat)
    requires t.Legal() && 0 < depth <= w < t.words
    ensures |ExtremalTrace(t, depth).completions| == t.words - depth && |ExtremalTrace(t, depth).readTimes| == t.words
    ensures ExtremalTrace(t, depth).completions[w - depth] == Completion(t, w - depth)
    ensures ExtremalTrace(t, depth).readTimes[w] == t.period * w
  {}

  lemma ExtremalTraceDecides(t: Timing, depth: nat)
    requires t.Legal() && 0 < depth
    requires LegalTrace(t, depth, ExtremalTrace(t, depth)) && MeetsDeadlines(t, depth, ExtremalTrace(t, depth))
    ensures Safe(t, depth)
  {
    forall w: nat | w < t.words ensures OnTime(t, depth, w) {
      if depth <= w { ExtremalTraceAt(t, depth, w); }
    }
  }

  /**
    The claim the script makes in a comment: constant maximum latency and minimum host spacing
    dominate every bounded-latency work-conserving trace, and nothing weaker would do.
  */
  lemma AdversarialDominance(t: Timing, depth: nat)
    requires t.Legal() && 0 < depth
    ensures Safe(t, depth) <==> forall tr :: LegalTrace(t, depth, tr) ==> MeetsDeadlines(t, depth, tr)
  {
    if Safe(t, depth) {
      forall tr | LegalTrace(t, depth, tr) ensures MeetsDeadlines(t, depth, tr) {
        SafeDominates(t, depth, tr);
      }
    } else if forall tr :: LegalTrace(t, depth, tr) ==> MeetsDeadlines(t, depth, tr) {
      ExtremalTraceIsLegal(t, depth);
      ExtremalTraceDecides(t, depth);
    }
  }
}

module PrefetchFifo {
  import opened Outcomes
  import opened NumberTheory
  import opened PrefetchTiming

  datatype ConfigError =
    | PayloadNotPositiveMultipleOfFour
    | ClockNotPositive
    | PeriodNotPositive
    | NegativeMargin
    | NegativeOverhead
    | ServiceBoundNotPositive
    | MarginConsumesPeriod
    | NoServiceBound
    | DepthOutOfRange

  datatype ModelConfig = ModelConfig(
    payloadBytes: int,
    bridgeClockHz: int,
    memoryClockHz: int,
    bridgePeriodCycles: int,
    setupMarginMemCycles: int,
    readerWordOverheadMemCycles: int,
    halfwordServiceBoundMemCycles: Option<int>)
  {
    /** The first check that fails, in the script's order. */
    function Validate(): Option<ConfigError> {
      if payloadBytes <= 0 || payloadBytes % 4 != 0 then Some(PayloadNotPositiveMultipleOfFour)
      else if bridgeClockHz <= 0 || memoryClockHz <= 0 then Some(ClockNotPositive)
      else if bridgePeriodCycles <= 0 then Some(PeriodNotPositive)
      else if setupMarginMemCycles < 0 then Some(NegativeMargin)
      else if readerWordOverheadMemCycles < 0 then Some(NegativeOverhead)
      else if halfwordServiceBoundMemCycles.Some? && halfwordServiceBoundMemCycles.value <= 0 then
        Some(ServiceBoundNotPositive)
      else if bridgePeriodCycles * memoryClockHz <= setupMarginMemCycles * bridgeClockHz then
        Some(MarginConsumesPeriod)
      else None
    }

    predicate Usable() { Validate().None? && halfwordServiceBoundMemCycles.Some? }

    function PayloadWords(): nat
      requires Validate().None?
    {
      payloadBytes / 4
    }

    /** Two serialized halfword reads and the fixed overhead. */
    function WordServiceBound(): int
      requires halfwordServiceBoundMemCycles.Some?
    {
      2 * halfwordServiceBoundMemCycles.value + readerWordOverheadMemCycles
    }

    /** All times in units of 1 / bridgeClockHz of a memory cycle. */
    function Scaled(): (t: Timing)
      requires Usable()
      ensures t.Legal()
    {
      assert WordServiceBound() * bridgeClockHz > 0;
      assert setupMarginMemCycles * bridgeClockHz >= 0;
      Timing(PayloadWords(),
             bridgePeriodCycles * memoryClockHz,
             WordServiceBound() * bridgeClockHz,
             setupMarginMemCycles * bridgeClockHz)
    }
  }

  /** The demand of the configuration that an error reports as not met; the other errors are not about it alone. */
  ghost predicate Violates(config: ModelConfig, error: ConfigError) {
    match error
    case PayloadNotPositiveMultipleOfFour =>
      !exists words: int :: 0 < words && config.payloadBytes == 4 * words
    case ClockNotPositive => !(0 < config.bridgeClockHz && 0 < config.memoryClockHz)
    case PeriodNotPositive => !(0 < config.bridgePeriodCycles)
    case NegativeMargin => config.setupMarginMemCycles < 0
    case NegativeOverhead => config.readerWordOverheadMemCycles < 0
    case ServiceBoundNotPositive =>
      exists bound: int :: bound <= 0 && config.halfwordServiceBoundMemCycles == Some(bound)
    case MarginConsumesPeriod =>
      !(config.setupMarginMemCycles * config.bridgeClockHz < config.bridgePeriodCycles * config.memoryClockHz)
    case NoServiceBound => false
    case DepthOutOfRange => false
  }

  /** The place of a check among the others. */
  function Rank(error: ConfigError): nat {
    match error
    case PayloadNotPositiveMultipleOfFour => 0
    case ClockNotPositive => 1
    case PeriodNotPositive => 2
    case NegativeMargin => 3
    case NegativeOverhead => 4
    case ServiceBoundNotPositive => 5
    case MarginConsumesPeriod => 6
    case NoServiceBound => 7
    case DepthOutOfRange => 8
  }

  /** A configuration is valid when it meets every demand; otherwise the first one it does not meet is reported. */
  lemma ValidatesInOrder(config: ModelConfig)
    ensures config.Validate().None? <==> forall error :: !Violates(config, error)
    ensures forall error :: config.Validate() == Some(error) ==>
      Violates(config, error) && forall other :: Rank(other) < Rank(error) ==> !Violates(config, other)
  {
    if config.payloadBytes > 0 && config.payloadBytes % 4 == 0 {
      assert config.payloadBytes == 4 * (config.payloadBytes / 4);
    }
    var bound := config.halfwordServiceBoundMemCycles;
    if bound.Some? && bound.value <= 0 { assert bound == Some(bound.value); }
    if config.Validate().Some? { assert Violates(config, config.Validate().value); }
  }

  /** The scaled times say what the configuration says: a word takes two halfword reads and the overhead. */
  lemma ScaledMeans(config: ModelConfig, halfword: int, t: Timing)
    requires config.Usable() && config.halfwordServiceBoundMemCycles == Some(halfword)
    ensures t == config.Scaled() <==>
      && 4 * t.words == config.payloadBytes
      && t.period == config.bridgePeriodCycles * config.memoryClockHz
      && t.service == (halfword + halfword + config.readerWordOverheadMemCycles) * config.bridgeClockHz
      && t.margin == config.setupMarginMemCycles * config.bridgeClockHz
  {}

  /** When a depth suffices, in the fields of the configuration, times in units of a cycle of both clocks. */
  ghost predicate Suffices(config: ModelConfig, halfword: int, depth: int) {
    var words := config.payloadBytes / 4;
    var service := (halfword + halfword + config.readerWordOverheadMemCycles) * config.bridgeClockHz;
    var margin := config.setupMarginMemCycles * config.bridgeClockHz;
    var period := config.bridgePeriodCycles * config.memoryClockHz;
    || depth >= words
    || (service <= period && service + margin <= depth * period)
    || (service > period && (words - depth) * service + margin <= (words - 1) * period)
  }

  lemma SafeIffSuffices(config: ModelConfig, depth: nat)
    requires config.Usable() && 0 < depth
    ensures Safe(config.Scaled(), depth) <==> Suffices(config, config.halfwordServiceBoundMemCycles.value, depth)
  {
    SafeIffFormula(config.Scaled(), depth);
  }

  /** One slot is enough for a single word, and else exactly when a word is served a margin before the next is read. */
  lemma OneSlot(config: ModelConfig, halfword: int)
    requires config.Usable() && config.halfwordServiceBoundMemCycles == Some(halfword)
    ensures Suffices(config, halfword, 1) <==>
      || config.payloadBytes == 4
      || (halfword + halfword + config.readerWordOverheadMemCycles + config.setupMarginMemCycles)
         * config.bridgeClockHz <= config.bridgePeriodCycles * config.memoryClockHz
  {
    var service := (halfword + halfword + config.readerWordOverheadMemCycles) * config.bridgeClockHz;
    var margin, words := config.setupMarginMemCycles * config.bridgeClockHz, config.payloadBytes / 4;
    var period := config.bridgePeriodCycles * config.memoryClockHz;
    MulDistribute(config.bridgeClockHz, halfword + halfword + config.readerWordOverheadMemCycles,
                  config.setupMarginMemCycles);
    assert margin >= 0;
    if words > 1 && service > period {
      MulPositive(words - 1, service - period);
      MulDistribute(words - 1, service - period, period);
    }
  }

  /** The default timing with a halfword served in 64 cycles: one slot misses a deadline, two do not. */
  lemma DefaultNeedsTwoSlots(config: ModelConfig)
    requires config == ModelConfig(0x90300, 74_250_000, 110_592_000, 88, 2, 3, Some(64))
    ensures config.Usable() && !Suffices(config, 64, 1) && Suffices(config, 64, 2)
  {}

  /** `failedDeadline` is in scaled units. */
  datatype SimulationResult = SimulationResult(
    safe: bool,
    depthWords: nat,
    failedWordIndex: Option<nat>,
    failedDeadline: Option<int>,
    minimumOccupancyWords: int)

  /** The variables the script's nested closures share. */
  class Fifo {
    const timing: Timing
    const capacity: nat
    var occupancy: nat
    var produced: nat
    var completionTime: Option<int>
    ghost var wordsRead: nat
    ghost var now: int

    /**
      Conservation (everything produced was read or is still queued), a work-conserving producer
      (it idles only when all words are produced or no slot is free), and the completion in flight
      is the one the max-plus recurrence names.
    */
    ghost predicate Valid()
      reads this
    {
      && timing.Legal() && 0 < capacity <= produced <= timing.words
      && wordsRead + occupancy == produced && occupancy <= capacity
      && (completionTime.Some? <==> produced < timing.words && occupancy < capacity)
      && (completionTime.Some? ==> completionTime.value == Completion(timing, produced - capacity))
      && (completionTime.Some? && wordsRead > 0 ==> timing.period * (wordsRead - 1) < completionTime.value)
      && (capacity < produced ==> Completion(timing, produced - capacity - 1) <= now)
    }

    constructor (timing: Timing, depth: nat)
      requires timing.Legal() && 0 < depth <= timing.words
      ensures Valid() && wordsRead == 0 && occupancy == produced == depth && now == 0
      ensures this.timing == timing && capacity == depth
    {
      this.timing, capacity := timing, depth;
      occupancy, produced, completionTime := depth, depth, None;
      wordsRead, now := 0, 0;
    }

    method StartIfPossible(instant: int)
      modifies this`completionTime
      ensures completionTime ==
              if old(completionTime).None? && produced < timing.words && occupancy < capacity
              then Some(instant + timing.service) else old(completionTime)
    {
      if completionTime.None? && produced < timing.words && occupancy < capacity {
        completionTime := Some(instant + timing.service);
      }
    }

    /** Deliver every refill that completes no later than `limit`. */
    method AdvanceCompletions(limit: int)
      requires Valid() && now <= limit
      modifies this
      ensures Valid() && now == limit && wordsRead == old(wordsRead) && old(occupancy) <= occupancy
      ensures completionTime.Some? ==> limit < completionTime.value
    {
      while completionTime.Some? && completionTime.value <= limit
        invariant Valid() && now <= limit && wordsRead == old(wordsRead) && old(occupancy) <= occupancy
        decreases timing.words - produced
      {
        var instant := completionTime.value;
        // The script raises here when no slot is reserved.
        assert occupancy < capacity;
        occupancy := occupancy + 1;
        produced := produced + 1;
        completionTime := None;
        now := instant;
        StartIfPossible(instant);
        if completionTime.Some? { NextCompletion(instant); }
      }
      now := limit;
    }

    lemma NextCompletion(instant: int)
      requires timing.Legal() && 0 < capacity < produced && wordsRead + occupancy == produced && occupancy < capacity
      requires instant == Completion(timing, produced - capacity - 1)
      requires wordsRead > 0 ==> timing.period * (wordsRead - 1) < instant
      ensures Completion(timing, produced - capacity) == instant + timing.service
    {
      var k := produced - capacity;
      assert k <= wordsRead - 1;
      assert timing.period * k <= timing.period * (wordsRead - 1) by { MulAtMost(timing.period, k, wordsRead - 1); }
    }

    /** The BRIDGE strobe for the next word at its actual time. */
    method ReadWord(instant: int)
      requires Valid() && 0 < occupancy && instant == timing.period * wordsRead && now == instant
      requires completionTime.Some? ==> instant < completionTime.value
      modifies this
      ensures Valid() && now == instant && wordsRead == old(wordsRead) + 1 && occupancy == old(occupancy) - 1
    {
      occupancy := occupancy - 1;
      wordsRead := wordsRead + 1;
      StartIfPossible(instant);
    }
  }

  /** What one simulation of `depth` reports; the minimum occupancy is 0 whether the run is safe or not. */
  ghost predicate Reports(t: Timing, depth: nat, r: SimulationResult) {
    && r.depthWords == depth && r.minimumOccupancyWords == 0
    && (r.safe <==> Safe(t, depth))
    && (r.safe ==> r.failedWordIndex.None? && r.failedDeadline.None?)
    && (!r.safe ==>
          && r.failedWordIndex.Some? && r.failedWordIndex.value < t.words
          && !OnTime(t, depth, r.failedWordIndex.value)
          && (forall v: nat :: v < r.failedWordIndex.value ==> OnTime(t, depth, v))
          && r.failedDeadline == Some(t.period * r.failedWordIndex.value - t.margin))
  }

  /** The event loop of simulate_depth, after its parameter checks. */
  method RunCopy(t: Timing, depth: nat) returns (r: SimulationResult)
    requires t.Legal() && 0 < depth <= t.words
    ensures Reports(t, depth, r)
  {
    var fifo := new Fifo(t, depth);
    var minimumOccupancy: int := fifo.occupancy;
    for wordIndex: nat := 0 to t.words
      invariant fifo.Valid() && fresh(fifo) && fifo.timing == t && fifo.capacity == depth && fifo.wordsRead == wordIndex
      invariant fifo.now <= (if wordIndex == 0 then 0 else t.period * wordIndex - t.period)
      invariant 0 <= minimumOccupancy <= fifo.occupancy
      invariant forall v: nat :: v < wordIndex ==> OnTime(t, depth, v)
    {
      var actualTime := t.period * wordIndex;
      var deadline := if wordIndex == 0 then actualTime else actualTime - t.margin;
      fifo.AdvanceCompletions(deadline);
      if fifo.occupancy == 0 {
        assert fifo.produced == wordIndex && !OnTime(t, depth, wordIndex);
        return SimulationResult(false, depth, Some(wordIndex), Some(deadline), minimumOccupancy);
      }
      PresentMeansOnTime(fifo, wordIndex, deadline);
      fifo.AdvanceCompletions(actualTime);
      fifo.ReadWord(actualTime);
      assert actualTime == t.period * (wordIndex + 1) - t.period;
      if fifo.occupancy < minimumOccupancy { minimumOccupancy := fifo.occupancy; }
    }
    return SimulationResult(true, depth, None, None, minimumOccupancy);
  }

  /** simulate_depth with its parameter checks. */
  method SimulateDepth(config: ModelConfig, depth: int) returns (r: Result<SimulationResult, ConfigError>)
    ensures config.Validate().Some? ==> r == Err(config.Validate().value)
    ensures config.Validate().None? && !config.Usable() ==> r == Err(NoServiceBound)
    ensures config.Usable() && !(0 < depth <= config.PayloadWords()) ==> r == Err(DepthOutOfRange)
    ensures config.Usable() && 0 < depth <= config.PayloadWords() ==>
      && r.Ok? && Reports(config.Scaled(), depth, r.value)
      && (r.value.safe <==> Suffices(config, config.halfwordServiceBoundMemCycles.value, depth))
  {
    var problem := config.Validate();
    if problem.Some? { return Err(problem.value); }
    if config.halfwordServiceBoundMemCycles.None? { return Err(NoServiceBound); }
    if depth <= 0 || depth > config.PayloadWords() { return Err(DepthOutOfRange); }
    SafeIffSuffices(config, depth);
    var report := RunCopy(config.Scaled(), depth);
    return Ok(report);
  }

  lemma {:induction false} CompletionsOrdered(t: Timing, j: nat, k: nat)
    requires t.Legal() && j <= k
    ensures Completion(t, j) <= Completion(t, k)
    decreases k - j
  {
    if j < k { CompletionsOrdered(t, j, k - 1); }
  }

  lemma PresentMeansOnTime(fifo: Fifo, w: nat, deadline: int)
    requires fifo.Valid() && fifo.wordsRead == w && fifo.occupancy > 0 && fifo.now == deadline
    requires deadline == if w == 0 then 0 else fifo.timing.period * w - fifo.timing.margin
    ensures OnTime(fifo.timing, fifo.capacity, w)
  {
    if fifo.capacity <= w {
      CompletionsOrdered(fifo.timing, w - fifo.capacity, fifo.produced - fifo.capacity - 1);
    }
  }

  /** minimum_safe_depth: the binary search finds the least safe depth, and one always exists. */
  method MinimumSafeDepth(config: ModelConfig) returns (r: Result<(nat, SimulationResult), ConfigError>)
    ensures r.Ok? <==> config.Usable()
    ensures !config.Usable() ==>
      r == Err(if config.Validate().Some? then config.Validate().value else NoServiceBound)
    ensures r.Ok? ==>
      && 0 < r.value.0 <= config.PayloadWords()
      && (forall d: nat :: 0 < d <= config.PayloadWords() ==> (Safe(config.Scaled(), d) <==> r.value.0 <= d))
      && r.value.1 == SimulationResult(true, r.value.0, None, None, 0)
    ensures r.Ok? ==> var halfword := config.halfwordServiceBoundMemCycles.value;
      && 0 < r.value.0 && 4 * r.value.0 <= config.payloadBytes
      && (forall d: nat :: 0 < d ==> (Suffices(config, halfword, d) <==> r.value.0 <= d))
      && (r.value.0 == 1 <==>
            || config.payloadBytes == 4
            || (halfword + halfword + config.readerWordOverheadMemCycles + config.setupMarginMemCycles)
               * config.bridgeClockHz <= config.bridgePeriodCycles * config.memoryClockHz)
  {
    var problem := config.Validate();
    if problem.Some? { return Err(problem.value); }
    if config.halfwordServiceBoundMemCycles.None? { return Err(NoServiceBound); }
    ghost var t := config.Scaled();

    var low, high := 1, config.PayloadWords();
    var highResult := SimulateDepth(config, high);
    // The script raises here when full prefetch is reported unsafe.
    assert highResult.value.safe;
    while low < high
      invariant 1 <= low <= high <= config.PayloadWords()
      invariant Safe(t, high)
      invariant forall d: nat :: 0 < d < low ==> !Safe(t, d)
    {
      var middle := (low + high) / 2;
      var result := SimulateDepth(config, middle);
      if result.value.safe {
        high := middle;
      } else {
        forall d: nat | 0 < d <= middle ensures !Safe(t, d) {
          if Safe(t, d) { SafeMonotoneInDepth(t, d, middle); }
        }
        low := middle + 1;
      }
    }
    forall d: nat | low <= d ensures Safe(t, d) { SafeMonotoneInDepth(t, low, d); }
    forall d: nat | 0 < d ensures Suffices(config, config.halfwordServiceBoundMemCycles.value, d) <==> low <= d {
      SafeIffSuffices(config, d);
    }
    OneSlot(config, config.halfwordServiceBoundMemCycles.value);
    var result := SimulateDepth(config, low);
    return Ok((low, result.value));
  }
}
