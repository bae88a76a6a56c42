/** Divisibility, primality and products of multisets of primes: the arithmetic that
    the sieve, the prime table and the prime-encoded bag all rest on. */
module NumberTheory {

  /** d divides n. */
  predicate Divides(d: nat, n: nat)
    requires d > 0
  {
    n % d == 0
  }

  /** n is a prime: at least 2 and without a divisor strictly between 1 and n. */
  ghost predicate IsPrime(n: nat)
  {
    n >= 2 && forall d :: 2 <= d < n ==> !Divides(d, n)
  }

  /** Every element of m is a prime. */
  ghost predicate AllPrime(m: multiset<nat>)
  {
    forall x :: x in m ==> IsPrime(x)
  }

  lemma MulMod(d: nat, k: nat)
    requires d > 0
    ensures Divides(d, d * k) && (d * k) / d == k
  {
  }

  lemma DividesTrans(a: nat, b: nat, c: nat)
    requires a > 0 && b > 0 && Divides(a, b) && Divides(b, c)
    ensures Divides(a, c)
  {
    var x, y := b / a, c / b;
    assert b == a * x;
    assert c == b * y;
    assert c == a * (x * y);
    MulMod(a, x * y);
  }

  /** A divisor of a positive number is no larger than it. */
  lemma DivisorBound(d: nat, n: nat)
    requires d > 0 && n > 0 && Divides(d, n)
    ensures d <= n
  {
    var k := n / d;
    assert n == d * k;
    assert k >= 1;
  }

  /** Two primes one of which divides the other are equal. */
  lemma PrimeDividesPrime(p: nat, q: nat)
    requires IsPrime(p) && IsPrime(q) && Divides(p, q)
    ensures p == q
  {
    DivisorBound(p, q);
  }

  /** The least divisor of n that is at least d. */
  function SmallestFactorFrom(n: nat, d: nat): (r: nat)
    requires 2 <= d <= n
    decreases n - d
    ensures d <= r <= n && Divides(r, n)
    ensures forall k :: d <= k < r ==> !Divides(k, n)
  {
    if Divides(d, n) then d else SmallestFactorFrom(n, d + 1)
  }

  /** The least divisor of n above 1; it is prime, and n is prime exactly when it is n. */
  function SmallestFactor(n: nat): (r: nat)
    requires n >= 2
    ensures 2 <= r <= n && Divides(r, n)
    ensures forall k :: 2 <= k < r ==> !Divides(k, n)
    ensures IsPrime(r)
    ensures IsPrime(n) <==> r == n
  {
    var r := SmallestFactorFrom(n, 2);
    SmallestFactorIsPrime(n, r);
    r
  }

  lemma SmallestFactorIsPrime(n: nat, r: nat)
    requires 2 <= r <= n && Divides(r, n)
    requires forall k :: 2 <= k < r ==> !Divides(k, n)
    ensures IsPrime(r)
  {
    forall k | 2 <= k < r
      ensures !Divides(k, r)
    {
      if Divides(k, r) {
        DividesTrans(k, r, n);
      }
    }
  }

  lemma MulLe(a: nat, b: nat, c: nat)
    requires a <= b
    ensures a * c <= b * c
  {
  }

  /** The least factor of a composite number is at most its square root. */
  lemma SmallestFactorSquare(n: nat)
    requires n >= 2 && !IsPrime(n)
    ensures SmallestFactor(n) * SmallestFactor(n) <= n
  {
    var s := SmallestFactor(n);
    Cofactor(n, s);
    var e := n / s;
    assert s <= e;
    MulLe(s, e, s);
  }

  /** The cofactor of a proper divisor is a proper divisor too. */
  lemma Cofactor(n: nat, s: nat)
    requires 2 <= s < n && Divides(s, n)
    ensures var e := n / s; 2 <= e < n && Divides(e, n) && e * s == n
  {
    var e := n / s;
    DivExact(n, s);
    MulLe(2, s, e);
    MulSwap(e, s, 1);
    MulMod(e, s);
  }

  function Factorial(n: nat): (r: nat)
    ensures r >= 1
  {
    if n == 0 then 1 else n * Factorial(n - 1)
  }

  lemma {:induction false} FactorialDivisible(n: nat, k: nat)
    requires 1 <= k <= n
    ensures Divides(k, Factorial(n))
  {
    if k == n {
      MulMod(n, Factorial(n - 1));
    } else {
      FactorialDivisible(n - 1, k);
      var j := Factorial(n - 1) / k;
      assert Factorial(n - 1) == k * j;
      assert Factorial(n) == k * (n * j);
      MulMod(k, n * j);
    }
  }

  /** A prime above n (Euclid): the least factor of n! + 1. There are infinitely many primes. */
  ghost function PrimeAbove(n: nat): (q: nat)
    ensures IsPrime(q) && q > n
  {
    var q := SmallestFactor(Factorial(n) + 1);
    PrimeAboveBound(n, q);
    q
  }

  lemma ModOfMultiplePlus(q: nat, j: nat, s: nat)
    requires s < q
    ensures (q * j + s) % q == s
  {
    var t := q * j + s;
    var u := t / q;
    assert t == q * u + t % q;
    assert q * (j - u) == t % q - s;
    if j - u >= 1 {
      MulLe(1, j - u, q);
    } else if j - u <= -1 {
      MulLe(1, u - j, q);
    }
  }

  lemma PrimeAboveBound(n: nat, q: nat)
    requires IsPrime(q) && Divides(q, Factorial(n) + 1)
    ensures q > n
  {
    if q <= n {
      FactorialDivisible(n, q);
      var j := Factorial(n) / q;
      assert Factorial(n) + 1 == q * j + 1;
      ModOfMultiplePlus(q, j, 1);
    }
  }

  lemma DividesDifference(d: nat, x: nat, y: nat)
    requires d > 0 && Divides(d, x) && Divides(d, y) && y <= x
    ensures Divides(d, x - y)
  {
    var i, j := x / d, y / d;
    assert x - y == d * (i - j);
    assert i - j >= 0;
    MulMod(d, i - j);
  }

  lemma {:induction false} EuclidBelow(p: nat, a: nat, b: nat)
    requires IsPrime(p) && 0 < a < p && Divides(p, a * b)
    ensures Divides(p, b)
    decreases a
  {
    if a > 1 {
      assert !Divides(a, p);
      RemainderKeepsDivisor(p, a, b);
      EuclidBelow(p, p % a, b);
    }
  }

  /** If p divides a * b, it also divides (p % a) * b. */
  lemma RemainderKeepsDivisor(p: nat, a: nat, b: nat)
    requires p > 0 && a > 0 && Divides(p, a * b)
    ensures Divides(p, (p % a) * b)
  {
    var q := p / a;
    RemainderEquation(p, a, b);
    MulMod(p, b);
    MultipleDivides(p, a * b, q);
    DividesDifference(p, p * b, q * (a * b));
  }

  lemma RemainderEquation(p: nat, a: nat, b: nat)
    requires a > 0
    ensures (p % a) * b + (p / a) * (a * b) == p * b
  {
    var q, r := p / a, p % a;
    DivMod(p, a);
    MulDistrib(a * q, r, b);
    MulAssoc(a, q, b);
    MulSwap(q, a, b);
  }

  lemma MultipleDivides(p: nat, x: nat, q: nat)
    requires p > 0 && Divides(p, x)
    ensures Divides(p, q * x)
  {
    var m := x / p;
    DivExact(x, p);
    MulSwap(q, p, m);
    MulMod(p, q * m);
  }

  lemma DivMod(x: nat, d: nat)
    requires d > 0
    ensures x == d * (x / d) + x % d
  {
  }

  lemma MulDistrib(x: nat, y: nat, z: nat)
    ensures (x + y) * z == x * z + y * z
  {
  }

  /** Euclid's lemma: a prime dividing a product divides one of its factors. */
  lemma Euclid(p: nat, a: nat, b: nat)
    requires IsPrime(p) && Divides(p, a * b)
    ensures Divides(p, a) || Divides(p, b)
  {
    if !Divides(p, a) {
      var q, r := a / p, a % p;
      assert a == p * q + r && 0 < r < p;
      assert a * b == p * (q * b) + r * b;
      MulMod(p, q * b);
      DividesDifference(p, a * b, p * (q * b));
      assert r * b == a * b - p * (q * b);
      EuclidBelow(p, r, b);
    }
  }

  /** The product of the elements of m, with multiplicity. */
  ghost function Product(m: multiset<nat>): nat
    decreases |m|
  {
    if m == multiset{} then 1
    else
      var x :| x in m;
      x * Product(m - multiset{x})
  }

  lemma MulSwap(x: nat, y: nat, p: nat)
    ensures y * (x * p) == x * (y * p)
  {
  }

  /** Any element can be taken out of the product first. */
  lemma {:induction false} ProductRemove(m: multiset<nat>, x: nat)
    requires x in m
    ensures Product(m) == x * Product(m - multiset{x})
    decreases |m|
  {
    var y :| y in m && Product(m) == y * Product(m - multiset{y});
    if y != x {
      var my, mx := m - multiset{y}, m - multiset{x};
      assert x in my;
      assert y in mx;
      ProductRemove(my, x);
      ProductRemove(mx, y);
      var rest := my - multiset{x};
      assert rest == mx - multiset{y};
      MulSwap(x, y, Product(rest));
    }
  }

  lemma ProductAdd(m: multiset<nat>, x: nat)
    ensures Product(m + multiset{x}) == x * Product(m)
  {
    ProductRemove(m + multiset{x}, x);
    assert m + multiset{x} - multiset{x} == m;
  }

  /** The product of a union is the product of the products. */
  lemma {:induction false} ProductUnion(a: multiset<nat>, b: multiset<nat>)
    ensures Product(a + b) == Product(a) * Product(b)
    decreases |b|
  {
    if b == multiset{} {
      assert a + b == a;
    } else {
      var y :| y in b;
      ProductRemove(b, y);
      ProductRemove(a + b, y);
      assert a + b - multiset{y} == a + (b - multiset{y});
      ProductUnion(a, b - multiset{y});
      MulSwap(Product(a), y, Product(b - multiset{y}));
    }
  }

  lemma {:induction false} ProductPositive(m: multiset<nat>)
    requires AllPrime(m)
    ensures Product(m) >= 1
    decreases |m|
  {
    if m != multiset{} {
      var y :| y in m;
      var rest := m - multiset{y};
      assert y >= 1;
      assert AllPrime(rest) by {
        forall x | x in rest ensures IsPrime(x) {
          assert x in m;
        }
      }
      ProductRemove(m, y);
      ProductPositive(rest);
      MulPositive(y, Product(rest));
    }
  }

  lemma MulPositive(a: nat, b: nat)
    requires a >= 1 && b >= 1
    ensures a * b >= 1
  {
    assert a * b >= 1 * b;
  }

  /** A prime divides a product of primes exactly when it is one of them. */
  lemma {:induction false} PrimeDividesProduct(m: multiset<nat>, p: nat)
    requires AllPrime(m) && IsPrime(p)
    ensures Divides(p, Product(m)) <==> p in m
    decreases |m|
  {
    if p in m {
      ProductRemove(m, p);
      MulMod(p, Product(m - multiset{p}));
    } else if m == multiset{} {
      assert Product(m) == 1;
    } else {
      var y :| y in m;
      ProductRemove(m, y);
      PrimeDividesProduct(m - multiset{y}, p);
      if Divides(p, Product(m)) {
        Euclid(p, y, Product(m - multiset{y}));
        if Divides(p, y) {
          PrimeDividesPrime(p, y);
        }
      }
    }
  }

  lemma CancelDivides(y: nat, a: nat, b: nat)
    requires y > 0 && b > 0 && Divides(y * b, y * a)
    ensures Divides(b, a)
  {
    var k := (y * a) / (y * b);
    DivExact(y * a, y * b);
    MulAssoc(y, b, k);
    MulCancel(y, a, b * k);
    MulMod(b, k);
  }

  lemma DivExact(x: nat, d: nat)
    requires d > 0 && Divides(d, x)
    ensures x == d * (x / d)
  {
  }

  lemma MulAssoc(x: nat, y: nat, z: nat)
    ensures (x * y) * z == x * (y * z)
  {
  }

  /** A positive factor cancels from both sides of an equation. */
  lemma MulCancel(y: nat, u: nat, v: nat)
    requires y > 0 && y * u == y * v
    ensures u == v
  {
    if u < v {
      MulLess(y, u, v);
    } else if v < u {
      MulLess(y, v, u);
    }
  }

  lemma MulLess(y: nat, u: nat, v: nat)
    requires y > 0 && u < v
    ensures y * u < y * v
  {
    assert y * v == y * u + y * (v - u);
    MulPositive(y, v - u);
  }

  /** A contained multiset's product divides, and the quotient is the product of the rest. */
  lemma ProductOfSubmultiset(a: multiset<nat>, b: multiset<nat>)
    requires AllPrime(b) && b <= a
    ensures Product(b) >= 1
    ensures Divides(Product(b), Product(a)) && Product(a) / Product(b) == Product(a - b)
  {
    ProductPositive(b);
    assert a == b + (a - b);
    ProductUnion(b, a - b);
    MulMod(Product(b), Product(a - b));
  }

  /** A product of primes that divides another comes from a contained multiset. */
  lemma {:induction false} DividingProductIsSubmultiset(a: multiset<nat>, b: multiset<nat>)
    requires AllPrime(a) && AllPrime(b)
    requires Product(b) >= 1 && Divides(Product(b), Product(a))
    ensures b <= a
    decreases |b|
  {
    if b != multiset{} {
      var y :| y in b;
      CancelCommonPrime(a, b, y);
      DividingProductIsSubmultiset(a - multiset{y}, b - multiset{y});
      AddBack(a, b, y);
    }
  }

  lemma AddBack(a: multiset<nat>, b: multiset<nat>, y: nat)
    requires y in a && y in b && b - multiset{y} <= a - multiset{y}
    ensures b <= a
  {
    assert b == b - multiset{y} + multiset{y};
    assert a == a - multiset{y} + multiset{y};
  }

  /** A prime of b is also one of a, and taking it out of both keeps the divisibility. */
  lemma CancelCommonPrime(a: multiset<nat>, b: multiset<nat>, y: nat)
    requires AllPrime(a) && AllPrime(b) && y in b
    requires Product(b) >= 1 && Divides(Product(b), Product(a))
    ensures var a', b' := a - multiset{y}, b - multiset{y};
      && y in a && AllPrime(a') && AllPrime(b')
      && Product(b') >= 1 && Divides(Product(b'), Product(a'))
  {
    var a', b' := a - multiset{y}, b - multiset{y};
    ProductRemove(b, y);
    ProductPositive(b');
    ProductPositive(a);
    MulMod(y, Product(b'));
    DividesTrans(y, Product(b), Product(a));
    PrimeDividesProduct(a, y);
    ProductRemove(a, y);
    CancelDivides(y, Product(a'), Product(b'));
  }

  /** Unique factorisation in the form a bag needs: one product of primes divides another
      exactly when its multiset is contained in the other's, and the quotient is the
      product of the difference. */
  lemma ProductDivides(a: multiset<nat>, b: multiset<nat>)
    requires AllPrime(a) && AllPrime(b)
    ensures Product(b) >= 1
    ensures Divides(Product(b), Product(a)) <==> b <= a
    ensures b <= a ==> Product(a) / Product(b) == Product(a - b)
  {
    ProductPositive(b);
    if b <= a {
      ProductOfSubmultiset(a, b);
    } else if Divides(Product(b), Product(a)) {
      DividingProductIsSubmultiset(a, b);
    }
  }

  /** Products of primes are equal only for equal multisets. */
  lemma ProductInjective(a: multiset<nat>, b: multiset<nat>)
    requires AllPrime(a) && AllPrime(b) && Product(a) == Product(b)
    ensures a == b
  {
    ProductDivides(a, b);
    ProductDivides(b, a);
  }

  function Power(p: nat, k: nat): (r: nat)
    ensures p >= 1 ==> r >= 1
  {
    if k == 0 then 1 else p * Power(p, k - 1)
  }

  /** k copies of p. */
  ghost function Copies(p: nat, k: nat): (m: multiset<nat>)
    ensures m[p] == k && forall q :: q != p ==> m[q] == 0
  {
    if k == 0 then multiset{} else Copies(p, k - 1) + multiset{p}
  }

  lemma {:induction false} ProductCopies(p: nat, k: nat)
    ensures Product(Copies(p, k)) == Power(p, k)
  {
    if k > 0 {
      ProductAdd(Copies(p, k - 1), p);
      ProductCopies(p, k - 1);
    }
  }

  /** The exponent of a prime in a product of primes is its multiplicity: p^k divides the
      product exactly when k is at most the number of copies of p. */
  lemma PowerDividesProduct(m: multiset<nat>, p: nat, k: nat)
    requires AllPrime(m) && IsPrime(p)
    ensures Power(p, k) >= 1
    ensures Divides(Power(p, k), Product(m)) <==> k <= m[p]
  {
    var c := Copies(p, k);
    assert AllPrime(c);
    ProductCopies(p, k);
    ProductDivides(m, c);
    assert c <= m <==> k <= m[p] by {
      if k <= m[p] {
        assert forall q :: c[q] <= m[q];
      }
    }
  }
}
