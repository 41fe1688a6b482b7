/** Division, Euclid's algorithm and permutation-invariant sums, as the cadence models need them. */
module NumberTheory {

  // ------------------------------------------------------------------------------------------
  // Multiplication and division
  // ------------------------------------------------------------------------------------------

  /** The larger of two integers. */
  function Max(a: int, b: int): int { if a < b then b else a }

  lemma MulAssoc(a: int, b: int, c: int)
    ensures (a * b) * c == a * (b * c)
  {}

  lemma MulDistribute(a: int, b: int, c: int)
    ensures a * (b + c) == a * b + a * c
    ensures (b + c) * a == b * a + c * a
  {}

  lemma MulAtMost(a: nat, b: int, c: int)
    requires b <= c
    ensures a * b <= a * c
  {}

  lemma MulPositive(a: int, b: int)
    requires 0 < a && 0 < b
    ensures 0 < a * b
  {}

  lemma MulBelow(g: int, s: int, n: int)
    requires 0 < g && s < n
    ensures g * s + g <= g * n
  {
    MulAtMost(g, s + 1, n);
    MulDistribute(g, s, 1);
  }

  /** A multiple of n strictly between -n and n is zero. */
  lemma MultipleBelow(n: int, w: int)
    requires 0 < n && -n < n * w < n
    ensures w == 0
  {
    if w >= 1 { MulAtMost(n, 1, w); }
    if w <= -1 { MulAtMost(n, w, -1); }
  }

  /** Quotient and remainder are determined by the division equation. */
  lemma DivModUnique(x: int, d: int, q: int, s: int)
    requires 0 < d && x == d * q + s && 0 <= s < d
    ensures x / d == q && x % d == s
  {
    assert x == d * (x / d) + x % d;
    MulDistribute(d, x / d, -q);
    assert d * (x / d + -q) == d * (x / d) + d * -q;
    MultipleBelow(d, x / d - q);
  }

  lemma DivModEquation(x: int, d: int)
    requires 0 < d
    ensures x == d * (x / d) + x % d && 0 <= x % d < d
  {}

  /** Adding a multiple of the divisor shifts the quotient. */
  lemma DivShift(x: int, d: int, k: int)
    requires 0 < d
    ensures (x + d * k) / d == x / d + k && (x + d * k) % d == x % d
  {
    DivModEquation(x, d);
    MulDistribute(d, x / d, k);
    DivModUnique(x + d * k, d, x / d + k, x % d);
  }

  /** floor(x / d) >= k is the same as x >= d * k. */
  lemma DivAtLeast(x: int, d: int, k: int)
    requires 0 < d
    ensures k <= x / d <==> d * k <= x
  {
    DivModEquation(x, d);
    if k <= x / d { MulAtMost(d, k, x / d); } else { MulBelow(d, x / d, k); }
  }

  // ------------------------------------------------------------------------------------------
  // Euclid's algorithm
  // ------------------------------------------------------------------------------------------

  function Gcd(a: nat, b: nat): (g: nat)
    requires 0 < a || 0 < b
    ensures 0 < g
    decreases b
  {
    if b == 0 then a else Gcd(b, a % b)
  }

  /** Cofactors of the greatest common divisor, and the Bezout identity between them. */
  lemma {:induction false} GcdCofactors(a: nat, b: nat) returns (p: nat, q: nat, u: int, v: int)
    requires 0 < a || 0 < b
    ensures a == Gcd(a, b) * p && b == Gcd(a, b) * q && u * p + v * q == 1
    decreases b
  {
    var g := Gcd(a, b);
    if b == 0 {
      p, q, u, v := 1, 0, 1, 0;
    } else {
      var p', q', u', v' := GcdCofactors(b, a % b);
      var k := a / b;
      DivModEquation(a, b);
      p, q, u, v := k * p' + q', p', v', u' - v' * k;
      assert a == b * k + a % b;
      calc {
        g * p;
        { MulDistribute(g, k * p', q'); }
        g * (k * p') + g * q';
        { MulAssoc(g, p', k); assert k * p' == p' * k; }
        b * k + a % b;
      }
      BezoutStep(p', q', u', v', k);
    }
  }

  lemma BezoutStep(p: int, q: int, u: int, v: int, k: int)
    requires u * p + v * q == 1
    ensures v * (k * p + q) + (u - v * k) * p == 1
  {
    MulDistribute(v, k * p, q);
    MulDistribute(p, u, -(v * k));
    MulAssoc(v, k, p);
  }

  /** d divides x. */
  ghost predicate Divides(d: int, x: int)
    requires 0 < d
  {
    x % d == 0
  }

  lemma DividesIntro(d: int, x: int, k: int)
    requires 0 < d && x == d * k
    ensures Divides(d, x) && x / d == k
  {
    DivModUnique(x, d, k, 0);
  }

  /** A common divisor divides every integer combination. */
  lemma DividesCombination(d: int, x: int, y: int, u: int, v: int)
    requires 0 < d && Divides(d, x) && Divides(d, y)
    ensures Divides(d, u * x + v * y)
  {
    var i, j := x / d, y / d;
    assert x == d * i && y == d * j;
    calc {
      u * x + v * y;
      { MulAssoc(d, i, u); MulAssoc(d, j, v); }
      d * (i * u) + d * (j * v);
      { MulDistribute(d, i * u, j * v); }
      d * (i * u + j * v);
    }
    DividesIntro(d, u * x + v * y, i * u + j * v);
  }

  lemma GcdDividesBoth(a: nat, b: nat)
    requires 0 < a || 0 < b
    ensures Divides(Gcd(a, b), a) && Divides(Gcd(a, b), b)
  {
    var p, q, _, _ := GcdCofactors(a, b);
    DividesIntro(Gcd(a, b), a, p);
    DividesIntro(Gcd(a, b), b, q);
  }

  /** u*p + v*q == 1 scaled by g. */
  lemma ScaledBezout(g: int, p: int, q: int, u: int, v: int)
    requires u * p + v * q == 1
    ensures u * (g * p) + v * (g * q) == g
  {
    assert u * (g * p) == g * (u * p);
    assert v * (g * q) == g * (v * q);
    MulDistribute(g, u * p, v * q);
  }

  /** Every common divisor divides the gcd. */
  lemma GcdIsGreatest(a: nat, b: nat, d: int)
    requires 0 < a || 0 < b
    requires 0 < d && Divides(d, a) && Divides(d, b)
    ensures Divides(d, Gcd(a, b))
  {
    var p, q, u, v := GcdCofactors(a, b);
    DividesCombination(d, a, b, u, v);
    ScaledBezout(Gcd(a, b), p, q, u, v);
  }

  /** Euclid's lemma: a divisor of x * y that is coprime to x divides y. */
  lemma CoprimeDivides(d: nat, x: nat, y: int)
    requires 0 < d && Gcd(d, x) == 1 && Divides(d, x * y)
    ensures Divides(d, y)
  {
    var p, q, u, v := GcdCofactors(d, x);
    assert u * d + v * x == 1;
    assert y == (u * y) * d + v * (x * y) by {
      MulDistribute(y, u * d, v * x);
      MulAssoc(v, x, y);
    }
    DividesIntro(d, d, 1);
    DividesCombination(d, d, x * y, u * y, v);
  }

  /** No divisor lies strictly between 1 and p. */
  ghost predicate Prime(p: nat) {
    1 < p && forall d: int :: 1 < d < p ==> !Divides(d, p)
  }

  lemma PrimeNotDividing(p: nat, x: nat)
    requires Prime(p) && !Divides(p, x)
    ensures 0 < x && Gcd(p, x) == 1
  {
    if x == 0 { DividesIntro(p, x, 0); }
    var g := Gcd(p, x);
    GcdDividesBoth(p, x);
    assert g <= p by {
      assert p == g * (p / g);
      if p < g { MultipleBelow(g, p / g); }
    }
  }

  /** Trial division up to the square root decides primality. */
  lemma TrialDivision(p: nat, root: nat)
    requires 1 < p && p < (root + 1) * (root + 1)
    requires forall d: int :: 1 < d <= root ==> !Divides(d, p)
    ensures Prime(p)
  {
    forall d: int | 1 < d < p ensures !Divides(d, p) {
      if Divides(d, p) {
        var e := p / d;
        assert p == d * e;
        if e <= 1 { MulAtMost(d, e, 1); }
        if d > root && e > root { MulBounds(root + 1, root + 1, d, e); }
        DividesIntro(e, p, d);
      }
    }
  }

  lemma MulBounds(a: nat, b: nat, c: nat, d: nat)
    requires a <= c && b <= d
    ensures a * b <= c * d
  {
    MulAtMost(a, b, d);
    MulAtMost(d, a, c);
  }

  // ------------------------------------------------------------------------------------------
  // Sums over sequences
  // ------------------------------------------------------------------------------------------

  function SumOf(f: int -> int, s: seq<int>): int {
    if s == [] then 0 else SumOf(f, s[..|s| - 1]) + f(s[|s| - 1])
  }

  lemma {:induction false} SumOfConcat(f: int -> int, a: seq<int>, b: seq<int>)
    ensures SumOf(f, a + b) == SumOf(f, a) + SumOf(f, b)
  {
    if b == [] {
      assert a + b == a;
    } else {
      assert (a + b)[..|a + b| - 1] == a + b[..|b| - 1];
      SumOfConcat(f, a, b[..|b| - 1]);
    }
  }

  /** The sum depends only on the multiset of summands. */
  lemma {:induction false} SumOfPermutation(f: int -> int, a: seq<int>, b: seq<int>)
    requires multiset(a) == multiset(b)
    ensures SumOf(f, a) == SumOf(f, b)
    decreases |a|
  {
    if a == [] {
      assert |multiset(b)| == 0;
    } else {
      var x, init := a[|a| - 1], a[..|a| - 1];
      assert a == init + [x];
      assert x in multiset(b);
      var i :| 0 <= i < |b| && b[i] == x;
      var front, back := b[..i], b[i + 1..];
      assert b == front + [x] + back;
      assert multiset(a) == multiset(init) + multiset{x};
      assert multiset(b) == multiset(front + back) + multiset{x};
      assert multiset(init) == multiset(a) - multiset{x};
      assert multiset(front + back) == multiset(b) - multiset{x};
      SumOfPermutation(f, init, front + back);
      SumOfConcat(f, front + [x], back);
      SumOfConcat(f, front, [x]);
      SumOfConcat(f, front, back);
      assert SumOf(f, [x]) == f(x) by { assert [x][..0] == []; }
    }
  }

  ghost predicate Distinct(s: seq<int>) {
    forall i, j :: 0 <= i < j < |s| ==> s[i] != s[j]
  }

  lemma {:induction false} DistinctMultiplicity(s: seq<int>, x: int)
    requires Distinct(s)
    ensures multiset(s)[x] == if x in s then 1 else 0
  {
    if s != [] {
      var init := s[..|s| - 1];
      assert s == init + [s[|s| - 1]];
      DistinctMultiplicity(init, x);
    }
  }

  /** Sequences without repetitions over the same elements are permutations of each other. */
  lemma DistinctPermutation(a: seq<int>, b: seq<int>)
    requires Distinct(a) && Distinct(b) && (forall x :: x in a <==> x in b)
    ensures multiset(a) == multiset(b)
  {
    forall x ensures multiset(a)[x] == multiset(b)[x] {
      DistinctMultiplicity(a, x);
      DistinctMultiplicity(b, x);
    }
  }
}
