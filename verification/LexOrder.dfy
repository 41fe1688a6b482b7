/** Strings in code-point order, as Python's `<` and `sorted` use it. */
module LexOrder {

  predicate Less(a: string, b: string) {
    if b == [] then false
    else if a == [] then true
    else if a[0] != b[0] then a[0] < b[0]
    else Less(a[1..], b[1..])
  }

  lemma {:induction false} Irreflexive(a: string)
    ensures !Less(a, a)
  {
    if a != [] { Irreflexive(a[1..]); }
  }

  lemma {:induction false} Total(a: string, b: string)
    ensures a == b || Less(a, b) || Less(b, a)
  {
    if a != [] && b != [] && a[0] == b[0] {
      Total(a[1..], b[1..]);
      assert a == [a[0]] + a[1..] && b == [b[0]] + b[1..];
    }
  }

  lemma {:induction false} Transitive(a: string, b: string, c: string)
    requires Less(a, b) && Less(b, c)
    ensures Less(a, c)
  {
    if a != [] && a[0] == b[0] == c[0] { Transitive(a[1..], b[1..], c[1..]); }
  }

  lemma Asymmetric(a: string, b: string)
    requires Less(a, b)
    ensures !Less(b, a)
  {
    if Less(b, a) {
      Transitive(a, b, a);
      Irreflexive(a);
    }
  }

  /** The first characters that differ decide, the smaller one first; without any the shorter string is first. */
  lemma {:induction false} FirstDifferenceDecides(p: string, s: string, t: string)
    ensures s != [] && t != [] && s[0] < t[0] ==> Less(p + s, p + t)
    ensures s == [] && t != [] ==> Less(p + s, p + t)
  {
    if p != [] {
      FirstDifferenceDecides(p[1..], s, t);
      assert (p + s)[1..] == p[1..] + s && (p + t)[1..] == p[1..] + t;
    } else {
      assert p + s == s && p + t == t;
    }
  }

  ghost predicate Ascending(s: seq<string>) {
    forall i, j :: 0 <= i < j < |s| ==> Less(s[i], s[j])
  }

  /** Two ascending sequences over the same elements are the same sequence. */
  lemma {:induction false} AscendingUnique(a: seq<string>, b: seq<string>)
    requires Ascending(a) && Ascending(b) && (forall x :: x in a <==> x in b)
    ensures a == b
  {
    if b != [] { NonemptyShares(b, a); }
    if a != [] {
      NonemptyShares(a, b);
      HeadsAgree(a, b);
      TailMembers(a);
      TailMembers(b);
      AscendingUnique(a[1..], b[1..]);
      assert a == [a[0]] + a[1..] && b == [b[0]] + b[1..];
    }
  }

  lemma NonemptyShares(a: seq<string>, b: seq<string>)
    requires a != [] && forall x :: x in a ==> x in b
    ensures b != [] && a[0] in b
  {
    assert a[0] in a;
  }

  lemma HeadsAgree(a: seq<string>, b: seq<string>)
    requires Ascending(a) && Ascending(b) && a != [] && b != [] && a[0] in b && b[0] in a
    ensures a[0] == b[0]
  {
    if a[0] != b[0] {
      assert Less(b[0], a[0]) && Less(a[0], b[0]);
      Asymmetric(a[0], b[0]);
    }
  }

  lemma TailMembers(s: seq<string>)
    requires Ascending(s) && s != []
    ensures forall x :: x in s[1..] <==> x in s && x != s[0]
  {
    Irreflexive(s[0]);
    forall x | x in s && x != s[0] ensures x in s[1..] {
      var i :| 0 <= i < |s| && s[i] == x;
      assert s[1..][i - 1] == x;
    }
    forall x | x in s[1..] ensures x in s && x != s[0] {
      var i :| 0 <= i < |s[1..]| && s[1..][i] == x;
      assert s[i + 1] == x && Less(s[0], s[i + 1]);
    }
  }

  /** Insert x, which is not yet present, at its place. */
  method Insert(s: seq<string>, x: string) returns (r: seq<string>)
    requires Ascending(s) && x !in s
    ensures Ascending(r) && forall y :: y in r <==> y in s || y == x
  {
    var i := 0;
    while i < |s| && Less(s[i], x)
      invariant 0 <= i <= |s|
      invariant forall k :: 0 <= k < i ==> Less(s[k], x)
    {
      i := i + 1;
    }
    if i < |s| { Total(s[i], x); }
    forall k | i <= k < |s| ensures Less(x, s[k]) {
      if i < k { Transitive(x, s[i], s[k]); }
    }
    r := s[..i] + [x] + s[i..];
    forall y ensures y in r <==> y in s || y == x {
      assert s == s[..i] + s[i..];
    }
  }

  /** sorted() of a set. */
  method Sorted(elements: set<string>) returns (r: seq<string>)
    ensures Ascending(r) && forall x :: x in r <==> x in elements
  {
    r := [];
    var rest := elements;
    while rest != {}
      invariant rest <= elements && Ascending(r)
      invariant forall x :: x in r <==> x in elements && x !in rest
      decreases rest
    {
      var x :| x in rest;
      r := Insert(r, x);
      rest := rest - {x};
    }
  }
}
