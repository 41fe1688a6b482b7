/**
  Completion phases of a consumer of period C observed by a producer of period P, for arbitrary
  positive periods.  scripts/late_frame_delivery.py and scripts/beam_race_safety.py enumerate them
  for a few fixed periods; scripts/frame_delivery_metrics.py states their range in a comment.
*/
module Phases {
  import opened NumberTheory

  /** Number of selections before the phase repeats. */
  function Selections(p: nat, c: nat): (n: nat)
    requires 0 < p
    ensures 0 < n && Gcd(p, c) * n == p
  {
    GcdDividesBoth(p, c);
    p / Gcd(p, c)
  }

  /** Producer frames completed in one superperiod. */
  function ProducerFrames(p: nat, c: nat): (m: nat)
    requires 0 < p
    ensures Gcd(p, c) * m == c
  {
    GcdDividesBoth(p, c);
    c / Gcd(p, c)
  }

  /** The phase at each selection of one superperiod, starting from residue r. */
  function PhaseSeq(p: nat, c: nat, r: nat): (s: seq<int>)
    requires 0 < p
    ensures |s| == Selections(p, c)
  {
    seq(Selections(p, c), k requires 0 <= k => (r + k * c) % p)
  }

  /** r, r + g, ..., r + (n - 1) g. */
  function Lattice(g: nat, r: nat, n: nat): (s: seq<int>)
    ensures |s| == n
  {
    seq(n, j requires 0 <= j => r + g * j)
  }

  /** Phase and completed-frame count of selection k, with the common factor divided out. */
  lemma PhaseForm(g: nat, n: nat, m: nat, r: nat, k: nat)
    requires 0 < n && r < g
    ensures 0 < g * n
    ensures (r + k * (g * m)) % (g * n) == r + g * ((k * m) % n)
    ensures (r + k * (g * m)) / (g * n) == (k * m) / n
  {
    var t, s := (k * m) / n, (k * m) % n;
    DivModEquation(k * m, n);
    MulPositive(g, n);
    calc {
      k * (g * m);
      { MulAssoc(k, g, m); MulAssoc(g, k, m); assert k * g == g * k; }
      g * (k * m);
      { MulDistribute(g, n * t, s); }
      g * (n * t) + g * s;
      { MulAssoc(g, n, t); }
      (g * n) * t + g * s;
    }
    MulBelow(g, s, n);
    assert 0 <= g * s;
    DivModUnique(r + k * (g * m), g * n, t, r + g * s);
  }

  /** With Bezout's identity, n | d m gives n | d, with the quotient spelled out. */
  lemma CancelCofactor(n: int, m: int, u: int, v: int, d: int, w: int)
    requires u * n + v * m == 1 && d * m == n * w
    ensures d == n * (d * u + v * w)
  {
    calc {
      d;
      { MulDistribute(d, u * n, v * m); }
      d * (u * n) + d * (v * m);
      { assert d * (u * n) == n * (d * u); assert d * (v * m) == v * (d * m); assert v * (n * w) == n * (v * w); }
      n * (d * u) + n * (v * w);
      { MulDistribute(n, d * u, v * w); }
      n * (d * u + v * w);
    }
  }

  lemma EqualResidues(n: nat, a: int, b: int)
    requires 0 < n && a % n == b % n
    ensures b - a == n * (b / n - a / n)
  {
    DivModEquation(a, n);
    DivModEquation(b, n);
    MulDistribute(n, b / n, -(a / n));
    assert n * (b / n + -(a / n)) == n * (b / n - a / n);
  }

  lemma NotAMultiple(n: int, m: int, u: int, v: int, d: int, w: int)
    requires u * n + v * m == 1 && 0 < d < n
    ensures d * m != n * w
  {
    if d * m == n * w {
      CancelCofactor(n, m, u, v, d, w);
      MultipleBelow(n, d * u + v * w);
    }
  }

  lemma ResidueInjective(n: nat, m: nat, u: int, v: int, k: nat, l: nat)
    requires u * n + v * m == 1 && k < l < n
    ensures (k * m) % n != (l * m) % n
  {
    var x: int, y: int := k * m, l * m;
    NotAMultiple(n, m, u, v, l - k, y / n - x / n);
    assert (l - k) * m == y - x by { MulDistribute(m, l, 0 - k); }
    if x % n == y % n { EqualResidues(n, x, y); }
  }

  lemma ResidueSurjective(n: nat, m: nat, u: int, v: int, j: nat) returns (k: nat)
    requires u * n + v * m == 1 && j < n
    ensures k < n && (k * m) % n == j
  {
    k := (j * v) % n;
    var t := (j * v) / n;
    DivModEquation(j * v, n);
    assert k == j * v - n * t;
    calc {
      k * m;
      { MulDistribute(m, j * v, -(n * t)); }
      (j * v) * m - (n * t) * m;
      { MulAssoc(j, v, m); MulAssoc(n, t, m); assert v * m == 1 - u * n; }
      j * (1 - u * n) - n * (t * m);
      { MulDistribute(j, 1, -(u * n)); assert j * (u * n) == n * (j * u); }
      j - n * (j * u) - n * (t * m);
      { MulDistribute(n, -(j * u), -(t * m)); }
      j + n * (-(j * u) - t * m);
    }
    DivModUnique(k * m, n, -(j * u) - t * m, j);
  }

  lemma LatticeDistinct(g: nat, r: nat, n: nat)
    requires 0 < g
    ensures Distinct(Lattice(g, r, n))
  {
    forall i, j | 0 <= i < j < n ensures Lattice(g, r, n)[i] != Lattice(g, r, n)[j] {
      MulBelow(g, i, j);
    }
  }

  /** From residue r < gcd(P, C), one superperiod visits r, r + g, ..., P - g + r, each exactly once. */
  lemma Equidistribution(p: nat, c: nat, r: nat)
    requires 0 < p && r < Gcd(p, c)
    ensures Gcd(p, c) * Selections(p, c) == p
    ensures Distinct(PhaseSeq(p, c, r))
    ensures multiset(PhaseSeq(p, c, r)) == multiset(Lattice(Gcd(p, c), r, Selections(p, c)))
  {
    var g := Gcd(p, c);
    var n, m, u, v := GcdCofactors(p, c);
    DividesIntro(g, p, n);
    assert Selections(p, c) == n && 0 < n;
    var phases, lattice := PhaseSeq(p, c, r), Lattice(g, r, n);
    forall k: nat | k < n ensures phases[k] == r + g * ((k * m) % n) { PhaseForm(g, n, m, r, k); }
    forall k: nat, l: nat | k < l < n ensures phases[k] != phases[l] {
      ResidueInjective(n, m, u, v, k, l);
      var a, b := (k * m) % n, (l * m) % n;
      if a < b { MulBelow(g, a, b); } else { MulBelow(g, b, a); }
    }
    forall x ensures x in phases <==> x in lattice {
      if x in phases {
        var k: nat :| k < n && phases[k] == x;
        assert lattice[(k * m) % n] == x;
      }
      if x in lattice {
        var j: nat :| j < n && lattice[j] == x;
        var k := ResidueSurjective(n, m, u, v, j);
        assert phases[k] == x;
      }
    }
    LatticeDistinct(g, r, n);
    DistinctPermutation(phases, lattice);
  }

  /** Any total over the phases is the same total over the lattice. */
  lemma PhaseTotal(f: int -> int, p: nat, c: nat, r: nat)
    requires 0 < p && r < Gcd(p, c)
    ensures SumOf(f, PhaseSeq(p, c, r)) == SumOf(f, Lattice(Gcd(p, c), r, Selections(p, c)))
  {
    Equidistribution(p, c, r);
    SumOfPermutation(f, PhaseSeq(p, c, r), Lattice(Gcd(p, c), r, Selections(p, c)));
  }

  lemma LatticeInit(g: nat, r: nat, n: nat)
    requires 0 < n
    ensures Lattice(g, r, n)[..n - 1] == Lattice(g, r, n - 1) && Lattice(g, r, n)[n - 1] == r + g * (n - 1)
  {}

  lemma {:induction false} LatticeSum(g: nat, r: nat, n: nat)
    ensures 2 * SumOf(x => x, Lattice(g, r, n)) == n * (2 * r + g * n - g)
  {
    if n > 0 {
      LatticeSum(g, r, n - 1);
      LatticeInit(g, r, n);
      var k := n - 1;
      assert g * n == g * k + g;
      MulDistribute(2 * r + g * k, k, 1);
      assert (k + 1) * (2 * r + g * k) == k * (2 * r + g * k - g) + k * g + (2 * r + g * k) by {
        MulDistribute(k, 2 * r + g * k - g, g);
      }
    }
  }

  /** The mean phase from residue r is r + (P - g) / 2, stated without fractions. */
  lemma PhaseMean(p: nat, c: nat, r: nat)
    requires 0 < p && r < Gcd(p, c)
    ensures 2 * SumOf(x => x, PhaseSeq(p, c, r)) == Selections(p, c) * (2 * r + p - Gcd(p, c))
  {
    Equidistribution(p, c, r);
    PhaseTotal(x => x, p, c, r);
    LatticeSum(Gcd(p, c), r, Selections(p, c));
  }

  /** A value below P is visited from residue r exactly when it leaves r modulo the gcd. */
  lemma PhaseMembership(p: nat, c: nat, r: nat, x: int)
    requires 0 < p && r < Gcd(p, c)
    ensures x in PhaseSeq(p, c, r) <==> 0 <= x < p && x % Gcd(p, c) == r
  {
    var g, n := Gcd(p, c), Selections(p, c);
    Equidistribution(p, c, r);
    var lattice := Lattice(g, r, n);
    assert x in PhaseSeq(p, c, r) <==> x in multiset(PhaseSeq(p, c, r));
    assert x in lattice <==> x in multiset(lattice);
    if x in lattice {
      var j: nat :| j < n && lattice[j] == x;
      DivModUnique(x, g, j, r);
      MulBelow(g, j, n);
    }
    if 0 <= x < p && x % g == r {
      var j := x / g;
      DivModEquation(x, g);
      DivAtLeast(x, g, n);
      DivAtLeast(x, g, 0);
      assert lattice[j] == x;
    }
  }

  /** Frames completed by selection k do not depend on the residue. */
  lemma CadenceIndependentOfResidue(p: nat, c: nat, r: nat, k: nat)
    requires 0 < p && r < Gcd(p, c)
    ensures (r + k * c) / p == (k * ProducerFrames(p, c)) / Selections(p, c)
  {
    PhaseForm(Gcd(p, c), Selections(p, c), ProducerFrames(p, c), r, k);
  }
}
