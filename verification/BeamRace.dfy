/**
  scripts/beam_race_safety.py: the nominal geometry and the opportunity count.  The script asserts
  that the count does not depend on the reset phase.  That is false for some final lines; here is
  exactly when it is true.
*/
module BeamRace {
  import opened Outcomes
  import opened NumberTheory
  import opened Phases
  import FrameDelivery

  const WIDTH := 224
  const HEIGHT := 144
  const PRODUCER_LINE_CYCLES := 3072     // 256 dots of 12 cycles
  const PRODUCER_CYCLES_PER_DOT := 12
  const OUTPUT_LINE_PIXELS := 397
  const OUTPUT_ACTIVE_Y := 66
  const OUTPUT_ACTIVE_X := 31
  const SYSTEM_CYCLES_PER_PIXEL := 6
  const RAM_PIPELINE_GUARD_CYCLES := 4
  const OUTPUT_FRAME_SYSTEM_CYCLES := 614556
  const LAST_VISIBLE_WRITE_PHASE := 441972

  // ------------------------------------------------------------------------------------------
  // Counting phases in the visible window
  // ------------------------------------------------------------------------------------------

  /** 1 for a phase after pixel zero and not after the last visible write. */
  function Eligible(last: int): int -> int {
    x => if 0 < x <= last then 1 else 0
  }

  /** Lattice indices 0 .. n - 1 that fall in [a, b]. */
  function InWindow(a: int, b: int, n: int): int {
    var top := if b < n - 1 then b else n - 1;
    if top < a then 0 else top - a + 1
  }

  lemma LatticePoint(g: nat, r: nat, last: nat, j: nat)
    requires 0 < g && r < g
    ensures 0 < r + g * j <= last <==> (if r == 0 then 1 else 0) <= j <= (last - r) / g
  {
    DivAtLeast(last - r, g, j);
    if j > 0 { MulPositive(g, j); }
  }

  lemma {:induction false} LatticeCount(g: nat, r: nat, last: nat, n: nat)
    requires 0 < g && r < g
    ensures SumOf(Eligible(last), Lattice(g, r, n)) == InWindow(if r == 0 then 1 else 0, (last - r) / g, n)
  {
    if n > 0 {
      LatticeCount(g, r, last, n - 1);
      LatticeInit(g, r, n);
      LatticePoint(g, r, last, n - 1);
    }
  }

  /** The number of eligible output frames in one superperiod from residue r. */
  function EligibleCount(p: nat, c: nat, last: nat, r: nat): int
    requires 0 < p
  {
    SumOf(Eligible(last), PhaseSeq(p, c, r))
  }

  lemma EligibleCountForm(p: nat, c: nat, last: nat, r: nat)
    requires 0 < p && last < p && r < Gcd(p, c)
    ensures EligibleCount(p, c, last, r) ==
            if r == 0 then last / Gcd(p, c) else if last < r then 0 else (last - r) / Gcd(p, c) + 1
  {
    var g, n := Gcd(p, c), Selections(p, c);
    PhaseTotal(Eligible(last), p, c, r);
    LatticeCount(g, r, last, n);
    DivAtLeast(last - r, g, n);
    DivAtLeast(last - r, g, 0);
  }

  lemma ResidueQuotient(last: nat, g: nat, r: nat)
    requires 0 < r < g && r <= last
    ensures (last - r) / g == if last % g < r then last / g - 1 else last / g
  {
    var q, s := last / g, last % g;
    DivModEquation(last, g);
    if s < r {
      MulDistribute(g, q, -1);
      DivModUnique(last - r, g, q - 1, g + s - r);
    } else {
      DivModUnique(last - r, g, q, s - r);
    }
  }

  lemma CountWhenDividing(p: nat, c: nat, last: nat, r: nat)
    requires 0 < p && 0 < last < p && r < Gcd(p, c) && Divides(Gcd(p, c), last)
    ensures EligibleCount(p, c, last, r) == last / Gcd(p, c)
  {
    var g := Gcd(p, c);
    EligibleCountForm(p, c, last, r);
    DivModEquation(last, g);
    assert g <= last by { if last / g <= 0 { MulAtMost(g, last / g, 0); } else { MulAtMost(g, 1, last / g); } }
    if r > 0 { ResidueQuotient(last, g, r); }
  }

  /** The counts of all residues agree exactly when the phase quantum divides the last visible write phase. */
  lemma OpportunityIndependentIffDividing(p: nat, c: nat, last: nat)
    requires 0 < p && 0 < last < p
    ensures (forall r: nat :: r < Gcd(p, c) ==> EligibleCount(p, c, last, r) == EligibleCount(p, c, last, 0))
            <==> Divides(Gcd(p, c), last)
  {
    var g := Gcd(p, c);
    if Divides(g, last) {
      forall r: nat | r < g ensures EligibleCount(p, c, last, r) == EligibleCount(p, c, last, 0) {
        CountWhenDividing(p, c, last, r);
        CountWhenDividing(p, c, last, 0);
      }
    } else {
      // Residue 1 catches one more phase than residue 0.
      assert g > 1 by { if g == 1 { DividesIntro(1, last, last); } }
      DivModEquation(last, g);
      EligibleCountForm(p, c, last, 0);
      EligibleCountForm(p, c, last, 1);
      ResidueQuotient(last, g, 1);
      var one: nat := 1;
      assert one < g && EligibleCount(p, c, last, one) != EligibleCount(p, c, last, 0);
    }
  }

  // ------------------------------------------------------------------------------------------
  // quantify_opportunity
  // ------------------------------------------------------------------------------------------

  datatype OpportunityError = TooFewLines | DependsOnResetPhase

  datatype Opportunity = Opportunity(finalLine: nat, outputFrames: nat, eligible: int)

  function ProducerPeriod(finalLine: nat): nat { (finalLine + 1) * PRODUCER_LINE_CYCLES }

  /** The generator expression inside the residue loop. */
  method CountEligible(p: nat, c: nat, last: nat, r: nat) returns (count: int)
    requires 0 < p
    ensures count == EligibleCount(p, c, last, r)
  {
    count := 0;
    var phases := PhaseSeq(p, c, r);
    for boundary: nat := 0 to Selections(p, c)
      invariant count == SumOf(Eligible(last), phases[..boundary])
    {
      var phase := (r + boundary * c) % p;
      assert phases[..boundary + 1] == phases[..boundary] + [phase];
      assert phases[..boundary + 1][..boundary] == phases[..boundary];
      if 0 < phase <= last { count := count + 1; }
    }
    assert phases[..Selections(p, c)] == phases;
  }

  /**
    quantify_opportunity.  It fails with the reset-phase assertion exactly for final lines whose
    line count is a multiple of 43 or 397; otherwise the eligible fraction is the visible write
    phase over the producer period.
  */
  method QuantifyOpportunity(finalLine: nat) returns (result: Result<Opportunity, OpportunityError>)
    ensures finalLine < HEIGHT <==> result == Err(TooFewLines)
    ensures HEIGHT <= finalLine ==> (result.Ok? <==> (finalLine + 1) % 43 != 0 && (finalLine + 1) % 397 != 0)
    ensures result.Ok? ==>
      var p := ProducerPeriod(finalLine);
      && result.value.finalLine == finalLine && result.value.outputFrames == Selections(p, OUTPUT_FRAME_SYSTEM_CYCLES)
      && result.value.eligible * p == LAST_VISIBLE_WRITE_PHASE * result.value.outputFrames
  {
    if finalLine < HEIGHT { return Err(TooFewLines); }
    var p, c, last := ProducerPeriod(finalLine), OUTPUT_FRAME_SYSTEM_CYCLES, LAST_VISIBLE_WRITE_PHASE;
    var phaseQuantum := Gcd(p, c);
    var eligibleCounts: seq<int> := [];
    for residue: nat := 0 to phaseQuantum
      invariant |eligibleCounts| == residue
      invariant forall r: nat :: r < residue ==> eligibleCounts[r] == EligibleCount(p, c, last, r)
    {
      var count := CountEligible(p, c, last, residue);
      eligibleCounts := eligibleCounts + [count];
    }
    OpportunityIndependentIffDividing(p, c, last);
    QuantumDividesLastWrite(finalLine);
    if exists i: nat :: i < |eligibleCounts| && eligibleCounts[i] != eligibleCounts[0] {
      assert !Divides(phaseQuantum, last);
      return Err(DependsOnResetPhase);
    }
    assert Divides(phaseQuantum, last) by {
      forall r: nat | r < phaseQuantum ensures EligibleCount(p, c, last, r) == EligibleCount(p, c, last, 0) {
        assert eligibleCounts[r] == eligibleCounts[0];
      }
    }
    EligibleFraction(p, c, last);
    return Ok(Opportunity(finalLine, Selections(p, c), eligibleCounts[0]));
  }

  lemma EligibleFraction(p: nat, c: nat, last: nat)
    requires 0 < p && 0 < last < p && Divides(Gcd(p, c), last)
    ensures EligibleCount(p, c, last, 0) * p == last * Selections(p, c)
  {
    CountWhenDividing(p, c, last, 0);
    DivModEquation(last, Gcd(p, c));
    ProductSwap(Gcd(p, c), last / Gcd(p, c), Selections(p, c));
  }

  lemma ProductSwap(g: int, e: int, n: int)
    ensures e * (g * n) == (g * e) * n
  {
    MulAssoc(e, g, n);
    assert e * g == g * e;
  }

  // ------------------------------------------------------------------------------------------
  // The divisibility condition for the script's constants
  // ------------------------------------------------------------------------------------------

  lemma Prime43()
    ensures Prime(43)
  {
    TrialDivision(43, 6);
  }

  lemma Prime397()
    ensures Prime(397)
  {
    TrialDivision(397, 19);
  }

  /** A prime that divides neither factor of 3072 m is coprime to every divisor of it. */
  lemma DivisorCoprime(q: nat, m: nat, g: nat)
    requires Prime(q) && q > 3 && 0 < g && Divides(g, 3072 * m) && !Divides(q, m) && !Divides(q, 3072)
    ensures Gcd(g, q) == 1
  {
    var d := Gcd(g, q);
    GcdDividesBoth(g, q);
    assert q == d * (q / d);
    if d != 1 {
      assert d <= q by { if q < d { MultipleBelow(d, q / d); } }
      assert d == q;
      var k, l := g / q, 3072 * m / g;
      assert 3072 * m == g * l && g == q * k;
      MulAssoc(q, k, l);
      DividesIntro(q, 3072 * m, k * l);
      PrimeNotDividing(q, 3072);
      CoprimeDivides(q, 3072, m);
    }
  }

  lemma MultipleTransfers(q: nat, g: nat, x: int)
    requires 0 < q && 0 < g && Divides(q, g) && Divides(g, x)
    ensures Divides(q, x)
  {
    var k, l := g / q, x / g;
    assert g == q * k && x == g * l;
    MulAssoc(q, k, l);
    DividesIntro(q, x, k * l);
  }

  lemma PrimeFactorOfLines(q: nat, m: nat)
    requires 0 < q && 0 < m && Divides(q, m) && Divides(q, OUTPUT_FRAME_SYSTEM_CYCLES)
    requires !Divides(q, LAST_VISIBLE_WRITE_PHASE)
    ensures !Divides(Gcd(3072 * m, OUTPUT_FRAME_SYSTEM_CYCLES), LAST_VISIBLE_WRITE_PHASE)
  {
    var g := Gcd(3072 * m, OUTPUT_FRAME_SYSTEM_CYCLES);
    var k := m / q;
    assert m == q * k;
    DividesIntro(q, 3072 * m, 3072 * k);
    GcdIsGreatest(3072 * m, OUTPUT_FRAME_SYSTEM_CYCLES, q);
    if Divides(g, LAST_VISIBLE_WRITE_PHASE) { MultipleTransfers(q, g, LAST_VISIBLE_WRITE_PHASE); }
  }

  lemma NoPrimeFactor(m: nat)
    requires 0 < m && !Divides(43, m) && !Divides(397, m)
    ensures Divides(Gcd(3072 * m, OUTPUT_FRAME_SYSTEM_CYCLES), LAST_VISIBLE_WRITE_PHASE)
  {
    var g := Gcd(3072 * m, OUTPUT_FRAME_SYSTEM_CYCLES);
    GcdDividesBoth(3072 * m, OUTPUT_FRAME_SYSTEM_CYCLES);
    Prime43();
    Prime397();
    DivisorCoprime(43, m, g);
    DivisorCoprime(397, m, g);
    assert OUTPUT_FRAME_SYSTEM_CYCLES == 397 * (43 * 36) && LAST_VISIBLE_WRITE_PHASE == 36 * 12277;
    CoprimeDivides(g, 397, 43 * 36);
    CoprimeDivides(g, 43, 36);
    DividesIntro(36, LAST_VISIBLE_WRITE_PHASE, 12277);
    MultipleTransfers(g, 36, LAST_VISIBLE_WRITE_PHASE);
  }

  /**
    With the script's output frame, the phase quantum divides the last write phase unless 43 or 397
    divides the line count.
  */
  lemma QuantumDividesLastWrite(finalLine: nat)
    ensures Divides(Gcd(ProducerPeriod(finalLine), OUTPUT_FRAME_SYSTEM_CYCLES), LAST_VISIBLE_WRITE_PHASE)
            <==> (finalLine + 1) % 43 != 0 && (finalLine + 1) % 397 != 0
  {
    var m := finalLine + 1;
    assert ProducerPeriod(finalLine) == 3072 * m;
    if Divides(43, m) {
      PrimeFactorOfLines(43, m);
    } else if Divides(397, m) {
      PrimeFactorOfLines(397, m);
    } else {
      NoPrimeFactor(m);
    }
  }

  /** A line count the script admits and then rejects, 172 lines: two residues have different counts. */
  lemma OpportunityCounterexample()
    ensures exists r: nat :: r < Gcd(ProducerPeriod(171), OUTPUT_FRAME_SYSTEM_CYCLES)
              && EligibleCount(ProducerPeriod(171), OUTPUT_FRAME_SYSTEM_CYCLES, LAST_VISIBLE_WRITE_PHASE, r)
                 != EligibleCount(ProducerPeriod(171), OUTPUT_FRAME_SYSTEM_CYCLES, LAST_VISIBLE_WRITE_PHASE, 0)
  {
    QuantumDividesLastWrite(171);
    OpportunityIndependentIffDividing(ProducerPeriod(171), OUTPUT_FRAME_SYSTEM_CYCLES, LAST_VISIBLE_WRITE_PHASE);
  }

  // ------------------------------------------------------------------------------------------
  // prove_nominal_geometry
  // ------------------------------------------------------------------------------------------

  function ProducerWriteTime(row: int, column: int, phase: int): int {
    row * PRODUCER_LINE_CYCLES + column * PRODUCER_CYCLES_PER_DOT - phase
  }

  function OutputReadDeadline(row: int, column: int): int {
    ((OUTPUT_ACTIVE_Y + row) * OUTPUT_LINE_PIXELS + OUTPUT_ACTIVE_X + column) * SYSTEM_CYCLES_PER_PIXEL
    - RAM_PIPELINE_GUARD_CYCLES
  }

  /**
    The two halves of the script speak of one raster: a producer frame ends where the write of the
    first dot after its final line would begin, the last visible write is that of the last pixel,
    and an output frame lies between two reads of the same pixel.  The producer of 159 lines and the
    output of 397 pixels a line are those of frame_delivery_metrics.py.
  */
  lemma OneRaster(finalLine: nat)
    ensures ProducerPeriod(finalLine) == ProducerWriteTime(finalLine + 1, 0, 0)
    ensures LAST_VISIBLE_WRITE_PHASE == ProducerWriteTime(HEIGHT - 1, WIDTH - 1, 0)
    ensures forall row, column ::
      OutputReadDeadline(row + 258, column) == OutputReadDeadline(row, column) + OUTPUT_FRAME_SYSTEM_CYCLES
    ensures ProducerWriteTime(1, 0, 0) == 256 * ProducerWriteTime(0, 1, 0)
    ensures ProducerPeriod(158) == FrameDelivery.PRODUCER_SYSTEM_CYCLES
    ensures FrameDelivery.ConsumerCycles(OUTPUT_LINE_PIXELS) == OUTPUT_FRAME_SYSTEM_CYCLES
  {}

  function Slack(row: int, column: int, phase: int): int {
    OutputReadDeadline(row, column) - ProducerWriteTime(row, column, phase)
  }

  /** prove_nominal_geometry: the last pixel has the least slack, 57386 cycles, and no phase makes any pixel late. */
  method ProveNominalGeometry() returns (minimum: int, minimumRow: int, minimumColumn: int)
    ensures minimum == 57386 && minimumRow == HEIGHT - 1 && minimumColumn == WIDTH - 1
    ensures forall row, column, phase :: 0 <= row < HEIGHT && 0 <= column < WIDTH && 0 <= phase ==>
      minimum + phase <= Slack(row, column, phase)
  {
    minimumRow, minimumColumn := 0, 0;
    minimum := Slack(0, 0, 0);
    for row := 0 to HEIGHT
      invariant 0 <= minimumRow < HEIGHT && 0 <= minimumColumn < WIDTH && minimum == Slack(minimumRow, minimumColumn, 0)
      invariant forall r, c :: 0 <= r < row && 0 <= c < WIDTH ==> minimum <= Slack(r, c, 0)
    {
      for column := 0 to WIDTH
        invariant 0 <= minimumRow < HEIGHT && 0 <= minimumColumn < WIDTH
        invariant minimum == Slack(minimumRow, minimumColumn, 0)
        invariant forall r, c :: 0 <= r < row && 0 <= c < WIDTH ==> minimum <= Slack(r, c, 0)
        invariant forall c :: 0 <= c < column ==> minimum <= Slack(row, c, 0)
      {
        var slack := Slack(row, column, 0);
        if slack < minimum {
          minimum, minimumRow, minimumColumn := slack, row, column;
        }
      }
    }
    assert minimum <= Slack(HEIGHT - 1, WIDTH - 1, 0);
    assert minimum > 0;
  }
}
