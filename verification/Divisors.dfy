/** The greatest common divisor, as a linear combination. */
module Divisors {

  function Gcd(a: nat, b: nat): (g: nat)
    requires a > 0 || b > 0
    ensures g > 0
    decreases b
  {
    if b == 0 then a else Gcd(b, a % b)
  }

  predicate Divides(d: nat, n: int)
    requires d > 0
  {
    n % d == 0
  }

  lemma Distribute(d: int, i: int, j: int)
    ensures d * (i + j) == d * i + d * j
  {
  }

  lemma Monotone(g: nat, i: int, j: int)
    ensures i <= j ==> g * i <= g * j
  {
    if i <= j {
      Distribute(g, i, j - i);
    }
  }

  lemma DividesMultiple(d: nat, k: int)
    requires d > 0
    ensures Divides(d, d * k)
  {
    var n := d * k;
    var q, r := n / d, n % d;
    assert n == d * q + r && 0 <= r < d;
    Distribute(d, q, k - q);
    Monotone(d, 1, k - q);
    Monotone(d, k - q, -1);
  }

  lemma DividesSum(d: nat, a: int, b: int)
    requires d > 0 && Divides(d, a) && Divides(d, b)
    ensures Divides(d, a + b)
  {
    var i, j := a / d, b / d;
    assert a == d * i && b == d * j;
    Distribute(d, i, j);
    DividesMultiple(d, i + j);
  }

  lemma DividesProduct(d: nat, a: int, k: int)
    requires d > 0 && Divides(d, a)
    ensures Divides(d, a * k)
  {
    var q := a / d;
    assert a == d * q;
    assert a * k == d * (q * k);
    DividesMultiple(d, q * k);
  }

  /** The gcd divides both numbers. */
  lemma {:induction false} GcdDivides(a: nat, b: nat)
    requires a > 0 || b > 0
    ensures Divides(Gcd(a, b), a) && Divides(Gcd(a, b), b)
    decreases b
  {
    if b > 0 {
      var g := Gcd(a, b);
      GcdDivides(b, a % b);
      DividesProduct(g, b, a / b);
      DividesSum(g, b * (a / b), a % b);
      assert b * (a / b) + a % b == a;
    }
  }

  /** And is a combination of them. */
  lemma {:induction false} Bezout(a: nat, b: nat) returns (x: int, y: int)
    requires a > 0 || b > 0
    ensures a * x + b * y == Gcd(a, b)
    decreases b
  {
    if b == 0 {
      x, y := 1, 0;
    } else {
      var q := a / b;
      var x', y' := Bezout(b, a % b);
      x, y := y', x' - q * y';
      Substitute(a, b, q, x', y');
    }
  }

  lemma Substitute(a: int, b: int, q: int, x: int, y: int)
    ensures a * y + b * (x - q * y) == b * x + (a - b * q) * y
  {
    assert b * (x - q * y) == b * x - b * (q * y);
    assert (a - b * q) * y == a * y - (b * q) * y;
    assert b * (q * y) == (b * q) * y;
  }

  /** Multiples of g that differ, differ by at least g. */
  lemma MultiplesApart(g: nat, r: int, m: int)
    requires g > 0 && Divides(g, r) && Divides(g, m) && r < m
    ensures r <= m - g
  {
    var i, j := r / g, m / g;
    assert r == g * i && m == g * j;
    Monotone(g, j, i);
    Monotone(g, i + 1, j);
    Distribute(g, i, 1);
  }

  /** A remainder by a multiple of g leaves room for one more g. */
  lemma RemainderLeavesRoom(g: nat, n: int, m: nat)
    requires g > 0 && m > 0 && Divides(g, n) && Divides(g, m)
    ensures 0 <= n % m <= m - g
  {
    var q := n / m;
    DividesProduct(g, m, -q);
    DividesSum(g, n, m * -q);
    assert n == m * q + n % m;
    assert m * -q == -(m * q);
    MultiplesApart(g, n % m, m);
  }
}
