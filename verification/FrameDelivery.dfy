/**
  The output cadence: which producer frame each output frame shows, and how the skipped producer
  frames are spaced.  `outs` output frames and `prods` producer frames make one superperiod, and
  `drops` is their difference.
*/
module SkipSpacing {
  import opened NumberTheory

  /** How far output frame k + 1 advances over output frame k. */
  function Increment(outs: nat, prods: nat, k: nat): int
    requires 0 < outs
  {
    ((k + 1) * prods) / outs - (k * prods) / outs
  }

  function IncrementSeq(outs: nat, prods: nat, n: nat): (s: seq<int>)
    requires 0 < outs
    ensures |s| == n
  {
    seq(n, k requires 0 <= k => Increment(outs, prods, k))
  }

  lemma IncrementForm(outs: nat, prods: nat, k: nat)
    requires 0 < outs
    ensures Increment(outs, prods, k) == 1 + ((k + 1) * (prods - outs)) / outs - (k * (prods - outs)) / outs
  {
    var drops := prods - outs;
    MulDistribute(k, drops, outs);
    MulDistribute(k + 1, drops, outs);
    assert k * prods == k * drops + outs * k && (k + 1) * prods == (k + 1) * drops + outs * (k + 1);
    DivShift(k * drops, outs, k);
    DivShift((k + 1) * drops, outs, k + 1);
  }

  /** Adding at most the divisor advances the quotient by at most one. */
  lemma DivAdvance(x: int, s: int, d: int)
    requires 0 < d && 0 <= s <= d
    ensures x / d <= (x + s) / d <= x / d + 1
  {
    DivModEquation(x, d);
    DivAtLeast(x + s, d, x / d);
    MulDistribute(d, x / d, 2);
    DivAtLeast(x + s, d, x / d + 2);
  }

  lemma IncrementInRange(outs: nat, prods: nat, k: nat)
    requires 0 < outs <= prods <= 2 * outs
    ensures Increment(outs, prods, k) in {1, 2}
  {
    IncrementForm(outs, prods, k);
    MulDistribute(prods - outs, k, 1);
    DivAdvance(k * (prods - outs), prods - outs, outs);
  }

  /** Increments of 1 and 2 alone keep outs <= prods <= 2 * outs: the ids start at 0 and end at prods. */
  lemma {:induction false} IdBounds(outs: nat, prods: nat, n: nat)
    requires 0 < outs && forall k: nat :: k < n ==> Increment(outs, prods, k) in {1, 2}
    ensures n <= (n * prods) / outs <= 2 * n
  {
    if n > 0 {
      IdBounds(outs, prods, n - 1);
      assert Increment(outs, prods, n - 1) in {1, 2};
    }
  }

  lemma AllIncrementsInRange(outs: nat, prods: nat)
    requires 0 < outs
    ensures (forall k: nat :: k < outs ==> Increment(outs, prods, k) in {1, 2}) <==> outs <= prods <= 2 * outs
  {
    if outs <= prods <= 2 * outs {
      forall k: nat | k < outs ensures Increment(outs, prods, k) in {1, 2} { IncrementInRange(outs, prods, k); }
    }
    if forall k: nat :: k < outs ==> Increment(outs, prods, k) in {1, 2} {
      IdBounds(outs, prods, outs);
      DivModUnique(outs * prods, outs, prods, 0);
    }
  }

  // ------------------------------------------------------------------------------------------
  // Positions of the skips
  // ------------------------------------------------------------------------------------------

  /** Indices of the increments equal to 2, ascending. */
  function SkipIndices(increments: seq<int>): seq<int> {
    if increments == [] then []
    else
      var n := |increments| - 1;
      SkipIndices(increments[..n]) + (if increments[n] == 2 then [n] else [])
  }

  /** Position of skip j within the superperiod; the formula extends past the end for j >= drops. */
  function SkipAt(outs: nat, drops: nat, j: nat): int
    requires 0 < drops
  {
    ((j + 1) * outs - 1) / drops
  }

  lemma SkipHere(outs: nat, drops: nat, k: nat)
    requires 0 < drops <= outs
    requires ((k + 1) * drops) / outs == (k * drops) / outs + 1
    ensures SkipAt(outs, drops, (k * drops) / outs) == k
  {
    var c := (k * drops) / outs;
    assert 0 <= c by { DivAtLeast(k * drops, outs, 0); }
    DivAtLeast(k * drops, outs, c + 1);
    DivAtLeast((k + 1) * drops, outs, c + 1);
    assert k * drops < (c + 1) * outs <= (k + 1) * drops;
    var x := (c + 1) * outs - 1;
    DivAtLeast(x, drops, k);
    DivAtLeast(x, drops, k + 1);
  }

  lemma {:induction false} SkipIndicesForm(outs: nat, drops: nat, n: nat)
    requires 0 < drops <= outs
    ensures |SkipIndices(IncrementSeq(outs, outs + drops, n))| == (n * drops) / outs
    ensures forall j: nat :: j < (n * drops) / outs ==>
      SkipIndices(IncrementSeq(outs, outs + drops, n))[j] == SkipAt(outs, drops, j)
  {
    if n > 0 {
      var m := n - 1;
      var increments := IncrementSeq(outs, outs + drops, n);
      SkipIndicesForm(outs, drops, m);
      assert increments[..m] == IncrementSeq(outs, outs + drops, m);
      IncrementForm(outs, outs + drops, m);
      IncrementInRange(outs, outs + drops, m);
      if increments[m] == 2 { SkipHere(outs, drops, m); }
    }
  }

  // ------------------------------------------------------------------------------------------
  // Gaps between the skips
  // ------------------------------------------------------------------------------------------

  function Gap(outs: nat, drops: nat, j: nat): int
    requires 0 < drops
  {
    SkipAt(outs, drops, j + 1) - SkipAt(outs, drops, j)
  }

  function GapSeq(outs: nat, drops: nat, n: nat): (s: seq<int>)
    requires 0 < drops
    ensures |s| == n
  {
    seq(n, j requires 0 <= j => Gap(outs, drops, j))
  }

  lemma GapIsFloorOrCeiling(outs: nat, drops: nat, j: nat)
    requires 0 < drops
    ensures Gap(outs, drops, j) in {outs / drops, outs / drops + 1}
  {
    var x := (j + 1) * outs - 1;
    MulDistribute(outs, j + 1, 1);
    DivModEquation(outs, drops);
    assert (j + 2) * outs - 1 == (x + outs % drops) + drops * (outs / drops);
    DivShift(x + outs % drops, drops, outs / drops);
    DivAdvance(x, outs % drops, drops);
  }

  /** The superperiod repeats: the skip after the last one is the first one, outs frames later. */
  lemma SkipWraps(outs: nat, drops: nat)
    requires 0 < drops
    ensures SkipAt(outs, drops, drops) == SkipAt(outs, drops, 0) + outs
  {
    MulDistribute(outs, drops, 1);
    DivShift(outs - 1, drops, outs);
  }

  lemma {:induction false} GapPrefixSum(outs: nat, drops: nat, n: nat)
    requires 0 < drops
    ensures SumOf(x => x, GapSeq(outs, drops, n)) == SkipAt(outs, drops, n) - SkipAt(outs, drops, 0)
  {
    if n > 0 {
      GapPrefixSum(outs, drops, n - 1);
      assert GapSeq(outs, drops, n)[..n - 1] == GapSeq(outs, drops, n - 1);
    }
  }

  /** A sequence over {q, q + 1}: the counts add up to the length and determine the sum. */
  lemma {:induction false} TwoValues(s: seq<int>, q: int)
    requires forall i :: 0 <= i < |s| ==> s[i] in {q, q + 1}
    ensures multiset(s)[q] + multiset(s)[q + 1] == |s|
    ensures SumOf(x => x, s) == q * |s| + multiset(s)[q + 1]
  {
    if s != [] {
      var init := s[..|s| - 1];
      assert s == init + [s[|s| - 1]];
      TwoValues(init, q);
      MulDistribute(q, |init|, 1);
    }
  }

  /** The cyclic gaps sum to outs; exactly outs mod drops of them are the longer one. */
  lemma GapCounts(outs: nat, drops: nat)
    requires 0 < drops
    ensures SumOf(x => x, GapSeq(outs, drops, drops)) == outs
    ensures forall x :: x in GapSeq(outs, drops, drops) ==> x in {outs / drops, outs / drops + 1}
    ensures multiset(GapSeq(outs, drops, drops))[outs / drops + 1] == outs % drops
    ensures multiset(GapSeq(outs, drops, drops))[outs / drops] == drops - outs % drops
  {
    var gaps := GapSeq(outs, drops, drops);
    GapPrefixSum(outs, drops, drops);
    SkipWraps(outs, drops);
    forall j: nat | j < drops ensures gaps[j] in {outs / drops, outs / drops + 1} {
      GapIsFloorOrCeiling(outs, drops, j);
    }
    TwoValues(gaps, outs / drops);
    DivModEquation(outs, drops);
  }

  /** All gaps are 3, 4 or 5 exactly when 3 * drops <= outs <= 5 * drops. */
  lemma GapsAreThreeToFive(outs: nat, drops: nat)
    requires 0 < drops
    ensures (forall x :: x in GapSeq(outs, drops, drops) ==> x in {3, 4, 5}) <==> 3 * drops <= outs <= 5 * drops
  {
    var gaps, q := GapSeq(outs, drops, drops), outs / drops;
    GapCounts(outs, drops);
    DivAtLeast(outs, drops, 3);
    DivAtLeast(outs, drops, 5);
    DivAtLeast(outs, drops, 6);
    DivModEquation(outs, drops);
    assert q in multiset(gaps) && (outs % drops > 0 ==> q + 1 in multiset(gaps));
    assert q in gaps && (outs % drops > 0 ==> q + 1 in gaps);
    if q == 5 && outs <= 5 * drops { assert outs % drops == 0; AllShort(gaps, q); }
  }

  lemma AllShort(s: seq<int>, q: int)
    requires multiset(s)[q + 1] == 0
    ensures q + 1 !in s
  {
    assert q + 1 in s ==> q + 1 in multiset(s);
  }
}

/** scripts/frame_delivery_metrics.py, for an arbitrary producer period. */
module FrameDelivery {
  import opened Outcomes
  import opened NumberTheory
  import opened Phases
  import opened SkipSpacing

  const FRAME_LINES := 258
  const PIXEL_DIVIDE := 6
  const PRODUCER_SYSTEM_CYCLES := 488448

  datatype DeriveError = LineTooNarrow | AdvanceNotOneOrTwo | UnexpectedSkipSpacing

  /** Counts of increments 1 and 2 and of gaps 3, 4 and 5. */
  datatype Signature = Signature(ones: int, twos: int, gap3: int, gap4: int, gap5: int)

  datatype Delivery = Delivery(
    frameSystemCycles: nat,
    outputFrames: nat,
    producerFrames: nat,
    signature: Signature,
    phaseQuantum: nat,
    phaseMeanMin: real,
    phaseMeanMax: real)

  function ConsumerCycles(linePixels: nat): nat { linePixels * FRAME_LINES * PIXEL_DIVIDE }

  /** producer_ids */
  function ProducerIds(p: nat, c: nat, r: nat, n: nat): (ids: seq<int>)
    requires 0 < p
    ensures |ids| == n + 1
  {
    seq(n + 1, b requires 0 <= b => (r + b * c) / p)
  }

  /** increments */
  function Increments(ids: seq<int>): (s: seq<int>)
    requires ids != []
    ensures |s| == |ids| - 1
  {
    seq(|ids| - 1, i requires 0 <= i < |ids| - 1 => ids[i + 1] - ids[i])
  }

  /** The increments are the same for every residue. */
  lemma IncrementsIndependentOfResidue(p: nat, c: nat, r: nat)
    requires 0 < p && r < Gcd(p, c)
    ensures Increments(ProducerIds(p, c, r, Selections(p, c))) ==
            IncrementSeq(Selections(p, c), ProducerFrames(p, c), Selections(p, c))
  {
    var outs, prods := Selections(p, c), ProducerFrames(p, c);
    forall k: nat | k < outs
      ensures Increments(ProducerIds(p, c, r, outs))[k] == Increment(outs, prods, k)
    {
      CadenceIndependentOfResidue(p, c, r, k);
      CadenceIndependentOfResidue(p, c, r, k + 1);
    }
  }

  lemma CyclicSuccessor(index: nat, n: nat)
    requires index < n
    ensures (index + 1) % n == if index == n - 1 then 0 else index + 1
  {
    if index == n - 1 { DivModUnique(n, n, 1, 0); } else { DivModUnique(index + 1, n, 0, index + 1); }
  }

  /** Consecutive distances of the skips, closed into a cycle of `period` output frames. */
  ghost predicate CyclicGaps(gaps: seq<int>, skips: seq<int>, period: int) {
    && |gaps| == |skips|
    && (forall i :: 0 <= i < |skips| - 1 ==> gaps[i] == skips[i + 1] - skips[i])
    && (skips != [] ==> gaps[|skips| - 1] == skips[0] + period - skips[|skips| - 1])
  }

  /** The loop that computes skip_gaps. */
  method SkipGaps(skips: seq<int>, period: int) returns (gaps: seq<int>)
    ensures CyclicGaps(gaps, skips, period)
  {
    gaps := [];
    for index := 0 to |skips|
      invariant |gaps| == index
      invariant forall i :: 0 <= i < index && i < |skips| - 1 ==> gaps[i] == skips[i + 1] - skips[i]
      invariant index == |skips| > 0 ==> gaps[index - 1] == skips[0] + period - skips[index - 1]
    {
      CyclicSuccessor(index, |skips|);
      var nextSkip := skips[(index + 1) % |skips|];
      if index == |skips| - 1 {
        nextSkip := nextSkip + period;
      }
      gaps := gaps + [nextSkip - skips[index]];
    }
  }

  lemma GapsOfSkips(outs: nat, drops: nat, gaps: seq<int>)
    requires 0 < drops <= outs
    requires CyclicGaps(gaps, SkipIndices(IncrementSeq(outs, outs + drops, outs)), outs)
    ensures gaps == GapSeq(outs, drops, drops)
  {
    SkipIndicesForm(outs, drops, outs);
    DivModUnique(outs * drops, outs, drops, 0);
    SkipWraps(outs, drops);
  }

  /** Reference signature for the given output frames and skips. */
  function ExpectedSignature(outs: nat, drops: nat): Signature {
    Signature(outs - drops, drops, GapCount(outs, drops, 3), GapCount(outs, drops, 4), GapCount(outs, drops, 5))
  }

  lemma {:induction false} CountTwos(s: seq<int>)
    requires forall i :: 0 <= i < |s| ==> s[i] in {1, 2}
    ensures multiset(s)[2] == |SkipIndices(s)| && multiset(s)[1] == |s| - |SkipIndices(s)|
  {
    if s != [] {
      var init := s[..|s| - 1];
      assert s == init + [s[|s| - 1]];
      CountTwos(init);
    }
  }

  lemma AbsentCount(s: seq<int>, a: int, b: int, x: int)
    requires (forall y :: y in s ==> y in {a, b}) && x != a && x != b
    ensures multiset(s)[x] == 0
  {
    assert x in multiset(s) ==> x in s;
  }

  lemma SkipCount(outs: nat, drops: nat)
    requires 0 < outs && drops <= outs
    ensures |SkipIndices(IncrementSeq(outs, outs + drops, outs))| == drops
  {
    if drops == 0 {
      NoSkips(outs, outs);
    } else {
      SkipIndicesForm(outs, drops, outs);
      DivModUnique(outs * drops, outs, drops, 0);
    }
  }

  lemma IncrementCounts(outs: nat, drops: nat)
    requires 0 < outs && drops <= outs
    ensures multiset(IncrementSeq(outs, outs + drops, outs))[1] == outs - drops
    ensures multiset(IncrementSeq(outs, outs + drops, outs))[2] == drops
  {
    AllIncrementsInRange(outs, outs + drops);
    CountTwos(IncrementSeq(outs, outs + drops, outs));
    SkipCount(outs, drops);
  }

  /** How often each gap length occurs. */
  function GapCount(outs: nat, drops: nat, x: int): int {
    if drops == 0 then 0
    else if x == outs / drops then drops - outs % drops
    else if x == outs / drops + 1 then outs % drops else 0
  }

  lemma GapCountForm(outs: nat, drops: nat, x: int)
    requires 0 < drops
    ensures multiset(GapSeq(outs, drops, drops))[x] == GapCount(outs, drops, x)
  {
    GapCounts(outs, drops);
    if x != outs / drops && x != outs / drops + 1 {
      AbsentCount(GapSeq(outs, drops, drops), outs / drops, outs / drops + 1, x);
    }
  }

  /** The tuple the script records for one residue is the expected one. */
  lemma SignatureForm(outs: nat, drops: nat, increments: seq<int>, gaps: seq<int>)
    requires 0 < outs && drops <= outs && increments == IncrementSeq(outs, outs + drops, outs)
    requires gaps == if drops == 0 then [] else GapSeq(outs, drops, drops)
    ensures Signature(multiset(increments)[1], multiset(increments)[2], multiset(gaps)[3], multiset(gaps)[4],
                      multiset(gaps)[5]) == ExpectedSignature(outs, drops)
  {
    IncrementCounts(outs, drops);
    if drops > 0 {
      GapCountForm(outs, drops, 3);
      GapCountForm(outs, drops, 4);
      GapCountForm(outs, drops, 5);
    }
  }

  lemma {:induction false} NoSkips(outs: nat, n: nat)
    requires 0 < outs
    ensures SkipIndices(IncrementSeq(outs, outs, n)) == []
  {
    if n > 0 {
      NoSkips(outs, n - 1);
      assert IncrementSeq(outs, outs, n)[..n - 1] == IncrementSeq(outs, outs, n - 1);
      IncrementForm(outs, outs, n - 1);
    }
  }

  /** The checks on one residue, as conditions on the superperiod. */
  predicate AdvanceOk(outs: nat, prods: nat) { outs <= prods <= 2 * outs }

  predicate SpacingOk(outs: nat, drops: nat) { drops == 0 || 3 * drops <= outs <= 5 * drops }

  /** Reference outcome of one residue. */
  function ExpectedOutcome(outs: nat, prods: nat): Result<Signature, DeriveError>
    requires 0 < outs
  {
    if !AdvanceOk(outs, prods) then Err(AdvanceNotOneOrTwo)
    else if !SpacingOk(outs, prods - outs) then Err(UnexpectedSkipSpacing)
    else Ok(ExpectedSignature(outs, prods - outs))
  }

  lemma ClosedGaps(outs: nat, drops: nat, gaps: seq<int>)
    requires 0 < outs && drops <= outs
    requires CyclicGaps(gaps, SkipIndices(IncrementSeq(outs, outs + drops, outs)), outs)
    ensures gaps == if drops == 0 then [] else GapSeq(outs, drops, drops)
    ensures (exists x :: x in gaps && x !in {3, 4, 5}) <==> !SpacingOk(outs, drops)
  {
    if drops == 0 {
      NoSkips(outs, outs);
    } else {
      GapsOfSkips(outs, drops, gaps);
      GapsAreThreeToFive(outs, drops);
    }
  }

  lemma BadIncrement(outs: nat, prods: nat, increments: seq<int>)
    requires 0 < outs && increments == IncrementSeq(outs, prods, outs)
    ensures (exists k: nat :: k < |increments| && increments[k] !in {1, 2}) <==> !AdvanceOk(outs, prods)
  {
    AllIncrementsInRange(outs, prods);
    assert forall k: nat :: k < outs ==> increments[k] == Increment(outs, prods, k);
  }

  /** The checks of one iteration of the phase loop, on its increments. */
  method CheckIncrements(outs: nat, increments: seq<int>, ghost prods: nat)
    returns (result: Result<Signature, DeriveError>)
    requires 0 < outs && increments == IncrementSeq(outs, prods, outs)
    ensures result == ExpectedOutcome(outs, prods)
  {
    BadIncrement(outs, prods, increments);
    if exists k: nat :: k < |increments| && increments[k] !in {1, 2} {
      return Err(AdvanceNotOneOrTwo);
    }
    ghost var drops: nat := prods - outs;
    var gaps := SkipGaps(SkipIndices(increments), outs);
    ClosedGaps(outs, drops, gaps);
    if exists x :: x in gaps && x !in {3, 4, 5} {
      return Err(UnexpectedSkipSpacing);
    }
    SignatureForm(outs, drops, increments, gaps);
    return Ok(Signature(multiset(increments)[1], multiset(increments)[2], multiset(gaps)[3], multiset(gaps)[4],
                        multiset(gaps)[5]));
  }

  /** One iteration of the phase loop. */
  method CheckResidue(p: nat, c: nat, r: nat) returns (result: Result<Signature, DeriveError>)
    requires 0 < p && r < Gcd(p, c)
    ensures result == ExpectedOutcome(Selections(p, c), ProducerFrames(p, c))
  {
    var outs := Selections(p, c);
    var increments := Increments(ProducerIds(p, c, r, outs));
    IncrementsIndependentOfResidue(p, c, r);
    result := CheckIncrements(outs, increments, ProducerFrames(p, c));
  }

  /**
    derive.  It accepts a width exactly when the two periods are equal or the excess of the output
    period over the producer period is between a fifth and a third of the producer period; then
    every residue has the same cadence, so the script's assertion about reset phases cannot fail.
  */
  method Derive(p: nat, linePixels: nat) returns (result: Result<Delivery, DeriveError>)
    requires 0 < p
    ensures linePixels < 224 ==> result == Err(LineTooNarrow)
    ensures 224 <= linePixels ==>
      var c := ConsumerCycles(linePixels);
      && (result.Ok? <==> c == p || 3 * (c - p) <= p <= 5 * (c - p))
      && (result.Err? ==> result.error == if p <= c <= 2 * p then UnexpectedSkipSpacing else AdvanceNotOneOrTwo)
    ensures result.Ok? ==>
      var c := ConsumerCycles(linePixels);
      var d := result.value;
      && d.frameSystemCycles == c && d.phaseQuantum == Gcd(p, c)
      && d.phaseQuantum * d.outputFrames == p && d.phaseQuantum * d.producerFrames == c
      && d.outputFrames <= d.producerFrames
      && d.signature == ExpectedSignature(d.outputFrames, d.producerFrames - d.outputFrames)
      && d.signature.ones + d.signature.twos == d.outputFrames
      && d.phaseMeanMin == (p - Gcd(p, c)) as real / 2.0
      && d.phaseMeanMax == d.phaseMeanMin + (Gcd(p, c) - 1) as real
  {
    if linePixels < 224 { return Err(LineTooNarrow); }
    var c := ConsumerCycles(linePixels);
    var divisor, outputFrames, producerFrames := Gcd(p, c), Selections(p, c), ProducerFrames(p, c);
    AcceptedPeriods(p, c);

    var signatures: set<Signature> := {};
    for residue: nat := 0 to divisor
      invariant residue == 0 ==> signatures == {}
      invariant residue > 0 ==> ExpectedOutcome(outputFrames, producerFrames).Ok?
      invariant residue > 0 ==> signatures == {ExpectedOutcome(outputFrames, producerFrames).value}
    {
      var checked := CheckResidue(p, c, residue);
      if checked.Err? { return Err(checked.error); }
      signatures := signatures + {checked.value};
    }
    assert |signatures| == 1;
    var signature :| signature in signatures;
    assert signature.ones + signature.twos == outputFrames;
    var meanMin := (p - divisor) as real / 2.0;
    return Ok(Delivery(c, outputFrames, producerFrames, signature, divisor, meanMin, meanMin + (divisor - 1) as real));
  }

  /** The acceptance conditions of the superperiod, without the common factor. */
  lemma AcceptedPeriods(p: nat, c: nat)
    requires 0 < p
    ensures ExpectedOutcome(Selections(p, c), ProducerFrames(p, c)).Ok? <==>
            c == p || 3 * (c - p) <= p <= 5 * (c - p)
    ensures AdvanceOk(Selections(p, c), ProducerFrames(p, c)) <==> p <= c <= 2 * p
  {
    ScaledCompare(Gcd(p, c), Selections(p, c), ProducerFrames(p, c));
    ScaledCompare(Gcd(p, c), ProducerFrames(p, c), 2 * Selections(p, c));
    ScaledAcceptance(Gcd(p, c), Selections(p, c), ProducerFrames(p, c), p, c);
  }

  lemma ScaledAcceptance(g: nat, outs: nat, prods: nat, p: nat, c: nat)
    requires 0 < g && 0 < outs && p == g * outs && c == g * prods
    ensures ExpectedOutcome(outs, prods).Ok? <==> c == p || 3 * (c - p) <= p <= 5 * (c - p)
  {
    var drops := prods - outs;
    ScaledDifference(g, outs, prods, 3);
    ScaledDifference(g, outs, prods, 5);
    ScaledCompare(g, drops, 0);
    ScaledCompare(g, 0, drops);
    ScaledCompare(g, 3 * drops, outs);
    ScaledCompare(g, outs, 5 * drops);
    assert g * 0 == 0;
    Accepted(outs, drops);
  }

  lemma ScaledDifference(g: int, outs: int, prods: int, times: int)
    ensures g * (prods - outs) == g * prods - g * outs
    ensures g * (times * (prods - outs)) == times * (g * prods - g * outs)
  {}

  lemma Accepted(outs: nat, drops: int)
    requires 0 < outs && 0 <= outs + drops
    ensures ExpectedOutcome(outs, outs + drops).Ok? <==> drops == 0 || 3 * drops <= outs <= 5 * drops
  {}

  lemma ScaledCompare(g: nat, a: int, b: int)
    requires 0 < g
    ensures g * a <= g * b <==> a <= b
  {
    if a <= b { MulAtMost(g, a, b); } else { MulBelow(g, b, a); }
  }

  /** Frames of lines 397 pixels wide take 614556 cycles, and others in proportion. */
  lemma FrameInProportion(linePixels: nat)
    ensures 397 * ConsumerCycles(linePixels) == 614556 * linePixels
  {}

  /** With the script's constants exactly the widths 379 to 420 are accepted; 391, 397 and 401 are among them. */
  lemma AcceptedWidths(linePixels: nat)
    ensures var p, c := PRODUCER_SYSTEM_CYCLES, ConsumerCycles(linePixels);
            c == p || 3 * (c - p) <= p <= 5 * (c - p) <==> 379 <= linePixels <= 420
  {
    assert ConsumerCycles(linePixels) == 1548 * linePixels;
  }
}
