/**
  scripts/late_frame_delivery.py: the phase-age enumeration and the count of newer generations,
  for an arbitrary producer period.
*/
module LateFrame {
  import opened NumberTheory
  import opened Phases

  const PIXEL_DIVIDE := 6
  const WIDTH := 224
  const HEIGHT := 144

  datatype PhaseAge = PhaseAge(
    consumerCycles: nat,
    phaseQuantum: nat,
    resetResiduesChecked: nat,
    selectionsPerResidue: nat,
    selectionMeanMin: real,
    selectionMeanMax: real,
    meanPixelOffset: real,
    firstPixelOffset: nat)

  function ActiveMeanOffset(hTotal: nat, activeX: nat, activeYOffset: nat): real {
    ((activeYOffset as real + (HEIGHT - 1) as real / 2.0) * hTotal as real
     + activeX as real + (WIDTH - 1) as real / 2.0)
    * PIXEL_DIVIDE as real
  }

  /** The mean pixel offset lies midway between the offsets of the first and the last active pixel. */
  lemma MeanOffsetIsMidpoint(hTotal: nat, activeX: nat, activeYOffset: nat)
    ensures var offset := (row: nat, column: nat) => ((activeYOffset + row) * hTotal + activeX + column) * 6;
            ActiveMeanOffset(hTotal, activeX, activeYOffset) * 2.0 == (offset(0, 0) + offset(143, 223)) as real
  {
    MulDistribute(hTotal, activeYOffset, HEIGHT - 1);
    var y, h := activeYOffset as real, hTotal as real;
    assert (y + 71.5) * h == y * h + 71.5 * h;
    assert (activeYOffset * hTotal) as real == y * h;
  }

  /** The mean phase from residue r, as the exact quotient the script forms. */
  function MeanPhase(p: nat, c: nat, r: nat): real
    requires 0 < p
  {
    SumOf(x => x, PhaseSeq(p, c, r)) as real / Selections(p, c) as real
  }

  lemma MeanPhaseForm(p: nat, c: nat, r: nat)
    requires 0 < p && r < Gcd(p, c)
    ensures MeanPhase(p, c, r) == r as real + (p - Gcd(p, c)) as real / 2.0
  {
    var sum, n, t := SumOf(x => x, PhaseSeq(p, c, r)), Selections(p, c), 2 * r + p - Gcd(p, c);
    PhaseMean(p, c, r);
    HalfProduct(sum, n, t);
    assert t as real == 2.0 * r as real + (p - Gcd(p, c)) as real;
  }

  lemma HalfProduct(sum: int, n: nat, t: int)
    requires 0 < n && 2 * sum == n * t
    ensures sum as real / n as real == t as real / 2.0
  {
    assert 2.0 * sum as real == n as real * t as real;
  }

  /** The inner loop: all phases of one residue, and their sum. */
  method ResidueAges(p: nat, c: nat, r: nat) returns (ages: seq<int>, total: int)
    requires 0 < p && r < Gcd(p, c)
    ensures ages == PhaseSeq(p, c, r) && total == SumOf(x => x, ages)
  {
    ages, total := [], 0;
    for selection: nat := 0 to Selections(p, c)
      invariant ages == PhaseSeq(p, c, r)[..selection]
      invariant total == SumOf(x => x, ages)
    {
      var phase := (r + selection * c) % p;
      assert PhaseSeq(p, c, r)[..selection + 1] == ages + [phase];
      assert (ages + [phase])[..selection] == ages;
      total := total + phase;
      ages := ages + [phase];
    }
  }

  /** Phases visited from the residues below `residues`. */
  ghost predicate SeenBelow(seen: set<int>, p: nat, g: nat, residues: nat)
    requires 0 < g
  {
    forall x :: x in seen <==> 0 <= x < p && x % g < residues
  }

  lemma {:induction false} RangeSize(s: set<int>, n: nat)
    requires forall x :: x in s <==> 0 <= x < n
    ensures |s| == n
  {
    if n == 0 {
      assert forall x :: x !in s;
    } else {
      assert s == (s - {n - 1}) + {n - 1};
      RangeSize(s - {n - 1}, n - 1);
    }
  }

  lemma SeenStep(seen: set<int>, ages: seq<int>, p: nat, c: nat, r: nat)
    requires 0 < p && r < Gcd(p, c) && SeenBelow(seen, p, Gcd(p, c), r) && ages == PhaseSeq(p, c, r)
    ensures SeenBelow(seen + (set x | x in ages), p, Gcd(p, c), r + 1)
  {
    forall x ensures x in seen + (set x | x in ages) <==> 0 <= x < p && x % Gcd(p, c) < r + 1 {
      PhaseMembership(p, c, r, x);
    }
  }

  /**
    enumerate_phase_age.  The coverage check cannot fail for any periods, and the extremes over all
    residues are (P - g) / 2 and (P - g) / 2 + g - 1, the closed form of frame_delivery_metrics.py.
  */
  method EnumeratePhaseAge(p: nat, hTotal: nat, vTotal: nat, activeX: nat, activeYOffset: nat) returns (age: PhaseAge)
    requires 0 < p
    ensures age.consumerCycles == hTotal * vTotal * PIXEL_DIVIDE
    ensures age.phaseQuantum == age.resetResiduesChecked == Gcd(p, age.consumerCycles)
    ensures age.phaseQuantum * age.selectionsPerResidue == p
    ensures age.selectionMeanMin == (p - age.phaseQuantum) as real / 2.0
    ensures age.selectionMeanMax == age.selectionMeanMin + (age.phaseQuantum - 1) as real
    ensures age.meanPixelOffset == ActiveMeanOffset(hTotal, activeX, activeYOffset)
    ensures age.firstPixelOffset == (activeYOffset * hTotal + activeX) * PIXEL_DIVIDE
  {
    var c := hTotal * vTotal * PIXEL_DIVIDE;
    var quantum, selections := Gcd(p, c), Selections(p, c);
    var base := (p - quantum) as real / 2.0;
    var phasesSeen: set<int> := {};
    var meanMin, meanMax := 0.0, 0.0;   // min and max of the list of means
    for residue: nat := 0 to quantum
      invariant SeenBelow(phasesSeen, p, quantum, residue)
      invariant residue > 0 ==> meanMin == base && meanMax == base + (residue - 1) as real
    {
      var ages, total := ResidueAges(p, c, residue);
      SeenStep(phasesSeen, ages, p, c, residue);
      phasesSeen := phasesSeen + (set x | x in ages);
      var mean := total as real / selections as real;
      assert mean == residue as real + base by { MeanPhaseForm(p, c, residue); }
      meanMin := if residue == 0 || mean < meanMin then mean else meanMin;
      meanMax := if residue == 0 || mean > meanMax then mean else meanMax;
    }
    RangeSize(phasesSeen, p) by { SeenAll(phasesSeen, p, quantum); }
    // The script raises here when a phase was missed.
    assert |phasesSeen| == p;
    age := PhaseAge(c, quantum, quantum, selections, meanMin, meanMax,
                    ActiveMeanOffset(hTotal, activeX, activeYOffset),
                    (activeYOffset * hTotal + activeX) * PIXEL_DIVIDE);
  }

  lemma SeenAll(seen: set<int>, p: nat, g: nat)
    requires 0 < g && SeenBelow(seen, p, g, g)
    ensures forall x :: x in seen <==> 0 <= x < p
  {}

  /** The newer-generation loop of derive: the count is min(delay, P). */
  method CountNewerGenerations(p: nat, delay: nat) returns (newer: nat)
    ensures newer == if delay < p then delay else p
  {
    newer := 0;
    for ageAtVs: nat := 0 to p
      invariant newer == if p <= delay then ageAtVs
                         else if ageAtVs <= p - delay then 0
                         else if delay == 0 then 0 else ageAtVs - (p - delay)
    {
      var untilNextCompletion := if ageAtVs != 0 then p - ageAtVs else p;
      if untilNextCompletion <= delay {
        newer := newer + 1;
      }
    }
  }
}
