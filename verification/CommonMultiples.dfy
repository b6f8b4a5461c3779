/** Least common multiples, by their defining property. */
module CommonMultiples {
  import opened Arith

  predicate Divides(a: int, x: int)
    requires a > 0
  {
    x % a == 0
  }

  ghost predicate IsLcm(l: nat, a: nat, b: nat)
    requires a > 0 && b > 0
  {
    && l > 0 && Divides(a, l) && Divides(b, l)
    && forall x: nat :: x > 0 && Divides(a, x) && Divides(b, x) ==> l <= x
  }

  lemma DividesIff(a: int, x: int, k: int)
    requires a > 0 && x == k * a
    ensures Divides(a, x)
  {
    DivUnique(x, a, k);
  }

  lemma DividesSum(a: int, x: int, y: int, k: int)
    requires a > 0 && Divides(a, x) && Divides(a, y)
    ensures Divides(a, x + k * y)
  {
    var m, n := x / a, y / a;
    assert k * (n * a) == (k * n) * a;
    MulDist(m, k * n, a);
    DividesIff(a, x + k * y, m + k * n);
  }

  lemma DividesTransitive(a: int, b: int, x: int)
    requires a > 0 && b > 0 && Divides(a, b) && Divides(b, x)
    ensures Divides(a, x)
  {
    var m, n := b / a, x / b;
    assert n * (m * a) == (n * m) * a;
    DividesIff(a, x, n * m);
  }

  /** The common multiples of a and b are exactly the multiples of their least one. */
  lemma CommonMultiple(l: nat, a: nat, b: nat, x: nat)
    requires a > 0 && b > 0 && IsLcm(l, a, b)
    ensures Divides(a, x) && Divides(b, x) <==> Divides(l, x)
  {
    if Divides(a, x) && Divides(b, x) {
      var r := x % l;
      assert r == x + (-(x / l)) * l;
      DividesSum(a, x, l, -(x / l));
      DividesSum(b, x, l, -(x / l));
    }
    if Divides(l, x) {
      DividesTransitive(a, l, x);
      DividesTransitive(b, l, x);
    }
  }

  /** The least multiple of a that b divides, found by stepping. */
  method Lcm(a: nat, b: nat) returns (l: nat)
    requires a > 0 && b > 0
    ensures IsLcm(l, a, b)
  {
    l := a;
    ghost var k := 1;
    while l % b != 0
      invariant 1 <= k <= b && l == k * a
      invariant forall j: nat :: 0 < j < k ==> !Divides(b, j * a)
      decreases b - k
    {
      if k == b {
        DividesIff(b, l, a);
        assert false;
      }
      MulDist(k, 1, a);
      l, k := l + a, k + 1;
    }
    DividesIff(a, l, k);
    forall x: nat | x > 0 && Divides(a, x) && Divides(b, x)
      ensures l <= x
    {
      FirstIsLeast(a, b, k, x);
    }
  }

  lemma FirstIsLeast(a: nat, b: nat, k: nat, x: nat)
    requires a > 0 && b > 0 && x > 0 && Divides(a, x) && Divides(b, x)
    requires forall j: nat :: 0 < j < k ==> !Divides(b, j * a)
    ensures k * a <= x
  {
    var j := x / a;
    assert x == j * a && j > 0;
    if j >= k {
      MulLe(k, j, a);
    }
  }
}
