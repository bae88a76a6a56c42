/** The segmented Sieve of Eratosthenes: an append-only list of the primes found so far,
    the highest number already classified and the growing limit that sizes each segment. */
module Eratosthenes {
  import opened NumberTheory

  /** The primes up to n, in ascending order: what the sieve's list must hold once every
      number up to n has been classified. */
  ghost function PrimesUpTo(n: nat): seq<nat>
  {
    if n < 2 then [] else PrimesUpTo(n - 1) + (if IsPrime(n) then [n] else [])
  }

  ghost predicate StrictlyAscending(s: seq<nat>)
  {
    forall i, j :: 0 <= i < j < |s| ==> s[i] < s[j]
  }

  /** PrimesUpTo(n) holds exactly the primes that are at most n. */
  lemma {:induction false} PrimesUpToMembers(n: nat)
    ensures forall x :: x in PrimesUpTo(n) <==> 2 <= x <= n && IsPrime(x)
  {
    if n >= 2 {
      PrimesUpToMembers(n - 1);
    }
  }

  lemma {:induction false} PrimesUpToAscending(n: nat)
    ensures StrictlyAscending(PrimesUpTo(n))
  {
    if n >= 2 {
      var s := PrimesUpTo(n - 1);
      PrimesUpToAscending(n - 1);
      PrimesUpToMembers(n - 1);
      if IsPrime(n) {
        var t := s + [n];
        forall i, j | 0 <= i < j < |t|
          ensures t[i] < t[j]
        {
          assert t[i] == s[i] && s[i] in s;
        }
      }
    }
  }

  /** Classifying more numbers only appends to the list. */
  lemma {:induction false} PrimesUpToPrefix(m: nat, n: nat)
    requires m <= n
    ensures PrimesUpTo(m) <= PrimesUpTo(n)
    decreases n - m
  {
    if m < n {
      PrimesUpToPrefix(m, n - 1);
    }
  }

  /** Any two such lists agree wherever both are defined. */
  lemma PrimesUpToAgree(m: nat, n: nat, i: nat)
    requires i < |PrimesUpTo(m)| && i < |PrimesUpTo(n)|
    ensures PrimesUpTo(m)[i] == PrimesUpTo(n)[i]
  {
    if m <= n {
      PrimesUpToPrefix(m, n);
    } else {
      PrimesUpToPrefix(n, m);
    }
  }

  /** A prime between m (exclusive) and n (inclusive) makes the list for n longer. */
  lemma PrimesUpToGrows(m: nat, q: nat, n: nat)
    requires IsPrime(q) && m < q <= n
    ensures |PrimesUpTo(m)| < |PrimesUpTo(n)|
  {
    PrimesUpToPrefix(m, q - 1);
    PrimesUpToPrefix(q, n);
  }

  /** A number up to which there are more than i primes. */
  ghost function PrimeBound(i: nat): (b: nat)
    ensures |PrimesUpTo(b)| > i
  {
    if i == 0 then
      assert IsPrime(2);
      2
    else
      var b := PrimeBound(i - 1);
      var q := PrimeAbove(b);
      PrimesUpToGrows(b, q, q);
      q
  }

  /** The i-th prime, counting from 0. */
  ghost function NthPrime(i: nat): nat
  {
    PrimesUpTo(PrimeBound(i))[i]
  }

  /** Every list PrimesUpTo(n) starts with the primes in order. */
  lemma NthPrimeAt(n: nat, i: nat)
    requires i < |PrimesUpTo(n)|
    ensures PrimesUpTo(n)[i] == NthPrime(i)
  {
    PrimesUpToAgree(n, PrimeBound(i), i);
  }

  /** The i-th prime is prime, and the sequence of primes is strictly increasing. */
  lemma NthPrimeIncreasing(i: nat, j: nat)
    requires i < j
    ensures IsPrime(NthPrime(i)) && NthPrime(i) < NthPrime(j)
  {
    var b := PrimeBound(j);
    NthPrimeAt(b, i);
    NthPrimeAt(b, j);
    PrimesUpToAscending(b);
    PrimesUpToMembers(b);
    assert PrimesUpTo(b)[i] in PrimesUpTo(b);
  }

  lemma NthPrimeIsPrime(i: nat)
    ensures IsPrime(NthPrime(i))
  {
    NthPrimeIncreasing(i, i + 1);
  }

  lemma SmallPrimes()
    ensures IsPrime(2) && IsPrime(3) && !IsPrime(4) && IsPrime(5) && !IsPrime(6) && IsPrime(7)
  {
    assert Divides(2, 4) && Divides(2, 6);
    forall d | 2 <= d < 5
      ensures !Divides(d, 5)
    {
      if d == 2 {} else if d == 3 {} else {}
    }
    forall d | 2 <= d < 7
      ensures !Divides(d, 7)
    {
      if d == 2 {} else if d == 3 {} else if d == 4 {} else if d == 5 {} else {}
    }
  }

  /** The first primes are 2, 3, 5 and 7, as a sieve started without a seed finds them. */
  lemma FirstPrimes()
    ensures PrimesUpTo(4) == [2, 3] && PrimesUpTo(7) == [2, 3, 5, 7]
    ensures NthPrime(0) == 2 && NthPrime(1) == 3 && NthPrime(2) == 5 && NthPrime(3) == 7
  {
    SmallPrimes();
    assert PrimesUpTo(1) == [];
    assert PrimesUpTo(4) == [2, 3];
    assert PrimesUpTo(7) == [2, 3, 5, 7];
    NthPrimeAt(7, 0);
    NthPrimeAt(7, 1);
    NthPrimeAt(7, 2);
    NthPrimeAt(7, 3);
  }

  /** The segment limit after doubling it until it exceeds the segment's lower bound. */
  function GrownLimit(limit: nat, min: nat): (r: nat)
    requires limit >= 1
    ensures r > min && r >= limit
    decreases min + 1 - limit
  {
    if limit > min then limit else GrownLimit(limit * 2, min)
  }

  /** The integer square root: the largest r with r * r <= n. */
  ghost function FloorSqrt(n: nat): (r: nat)
    ensures r * r <= n < (r + 1) * (r + 1)
  {
    if n == 0 then 0
    else
      var s := FloorSqrt(n - 1);
      if (s + 1) * (s + 1) <= n then s + 1 else s
  }

  /** The upper bound of the segment that starts at min under the given limit: the
      smaller of the limit and min plus the limit's square root. The segment [min, max]
      holds at least two numbers and stays within the limit. */
  ghost function SegmentMax(min: nat, limit: nat): (max: nat)
    requires limit > min
    ensures min < max <= limit
  {
    var root := FloorSqrt(limit);
    assert root >= 1;
    if limit < min + root then limit else min + root
  }

  /** The integer square root of n, found by counting up to the first r whose successor
      squared exceeds n. */
  method SquareRoot(n: nat) returns (r: nat)
    ensures r * r <= n < (r + 1) * (r + 1)
    ensures r == FloorSqrt(n)
  {
    r := 0;
    while (r + 1) * (r + 1) <= n
      invariant r * r <= n
      decreases n - r
    {
      assert r + 1 <= (r + 1) * (r + 1);
      r := r + 1;
    }
    FloorSqrtIs(n, r);
  }

  lemma FloorSqrtIs(n: nat, r: nat)
    requires r * r <= n < (r + 1) * (r + 1)
    ensures FloorSqrt(n) == r
  {
    var s := FloorSqrt(n);
    if s < r {
      MulLe(s + 1, r, s + 1);
      MulLe(s + 1, r, r);
    } else if s > r {
      MulLe(r + 1, s, r + 1);
      MulLe(r + 1, s, s);
    }
  }

  /** The two first segments of a sieve started without a seed: [2, 4] and [5, 7]. */
  lemma FreshSieveSegments()
    ensures GrownLimit(1, 2) == 4 && SegmentMax(2, 4) == 4
    ensures GrownLimit(4, 5) == 8 && SegmentMax(5, 8) == 7
    ensures PrimesUpTo(4) == [2, 3] && PrimesUpTo(7) == PrimesUpTo(4) + [5, 7]
  {
    assert GrownLimit(1, 2) == 4 by {
      assert GrownLimit(2, 2) == GrownLimit(4, 2) == 4;
    }
    assert GrownLimit(4, 5) == 8 by {
      assert GrownLimit(8, 5) == 8;
    }
    assert SegmentMax(2, 4) == 4 by {
      FloorSqrtIs(4, 2);
    }
    assert SegmentMax(5, 8) == 7 by {
      FloorSqrtIs(8, 2);
    }
    assert PrimesUpTo(4) == [2, 3] && PrimesUpTo(7) == [2, 3, 5, 7] by {
      FirstPrimes();
    }
  }

  /** The prime p strikes out n within a segment: n is a multiple of p, at least p * p. */
  ghost predicate Hit(p: nat, n: nat)
  {
    p > 0 && p * p <= n && Divides(p, n)
  }

  /** Some prime of ps strikes out n. */
  ghost predicate Struck(ps: seq<nat>, n: nat)
  {
    |ps| > 0 && (Struck(ps[..|ps| - 1], n) || Hit(ps[|ps| - 1], n))
  }

  lemma StruckAppend(ps: seq<nat>, p: nat, n: nat)
    ensures Struck(ps + [p], n) <==> Struck(ps, n) || Hit(p, n)
  {
    assert (ps + [p])[..|ps|] == ps;
  }

  lemma {:induction false} StruckWitness(ps: seq<nat>, n: nat)
    ensures Struck(ps, n) <==> exists k :: 0 <= k < |ps| && Hit(ps[k], n)
  {
    if |ps| > 0 {
      var init := ps[..|ps| - 1];
      StruckWitness(init, n);
      assert forall k :: 0 <= k < |init| ==> init[k] == ps[k];
    }
  }

  /** The sieve's test is exact: a number that no smaller prime strikes out is prime,
      and a number that one strikes out is not. */
  lemma SegmentTest(n: nat)
    requires n >= 2
    ensures Struck(PrimesUpTo(n - 1), n) <==> !IsPrime(n)
  {
    var ps := PrimesUpTo(n - 1);
    PrimesUpToMembers(n - 1);
    StruckWitness(ps, n);
    if Struck(ps, n) {
      var k :| 0 <= k < |ps| && Hit(ps[k], n);
      var p := ps[k];
      assert p in ps;
      MulLe(2, p, p);
      assert 2 <= p < n && Divides(p, n);
    }
    if !IsPrime(n) {
      var s := SmallestFactor(n);
      SmallestFactorSquare(n);
      assert s in ps;
      var k :| 0 <= k < |ps| && ps[k] == s;
      assert Hit(ps[k], n);
    }
  }

  /** Marks as composite (false) every entry min + i of the segment [min, max] that is a
      multiple of prime at least prime * prime; every other entry keeps its value. */
  method CountMultiplesInBitField(bitField: array<bool>, prime: nat, min: nat, max: nat)
    requires prime >= 1
    requires min <= max ==> max - min < bitField.Length
    modifies bitField
    ensures forall i :: 0 <= i < bitField.Length ==>
      bitField[i] == (old(bitField[i]) && !(min + i <= max && Hit(prime, min + i)))
  {
    var multiple := prime * prime;
    MulMod(prime, prime);
    while multiple <= max
      invariant multiple >= prime * prime && Divides(prime, multiple)
      invariant forall i :: 0 <= i < bitField.Length ==>
        bitField[i] == (old(bitField[i]) && !(min + i < multiple && min + i <= max && Hit(prime, min + i)))
      decreases max - multiple
    {
      NextMultiple(prime, multiple);
      assert Hit(prime, multiple);
      if multiple >= min {
        bitField[multiple - min] := false;
      }
      assert forall n :: multiple < n < multiple + prime ==> !Hit(prime, n);
      multiple := multiple + prime;
    }
  }

  /** No multiple of p lies strictly between two consecutive ones. */
  lemma NextMultiple(p: nat, m: nat)
    requires p >= 1 && Divides(p, m)
    ensures forall n :: m < n < m + p ==> !Divides(p, n)
    ensures Divides(p, m + p)
  {
    var q := m / p;
    assert m == p * q;
    forall n | m < n < m + p
      ensures !Divides(p, n)
    {
      ModOfMultiplePlus(p, q, n - m);
    }
    ModOfMultiplePlus(p, q + 1, 0);
    assert m + p == p * (q + 1);
  }

  class SieveOfEratosthenes {
    /** All primes found so far, in order. */
    var primes: seq<nat>
    /** Every number up to this one has been classified. */
    var highestTestedNum: nat
    /** The limit used to size the next segment. */
    var sieveLimit: nat

    /** The list holds exactly the primes up to highestTestedNum. */
    ghost predicate Valid()
      reads this
    {
      highestTestedNum >= 1 && sieveLimit >= 1 && primes == PrimesUpTo(highestTestedNum)
    }

    /** A sieve without a seed: nothing found yet, 0 and 1 count as classified. */
    constructor ()
      ensures Valid()
      ensures primes == [] && highestTestedNum == 1 && sieveLimit == 1
    {
      highestTestedNum := 1;
      sieveLimit := 1;
      primes := [];
    }

    /** A sieve seeded with a list of primes, which must be exactly the primes up to its
        last element. */
    constructor FromSeed(seed: seq<nat>)
      requires |seed| > 0 && seed == PrimesUpTo(seed[|seed| - 1])
      ensures Valid()
      ensures primes == seed && highestTestedNum == seed[|seed| - 1] && sieveLimit == highestTestedNum
    {
      highestTestedNum := 1;
      sieveLimit := 1;
      primes := [];
      new;
      for i := 0 to |seed|
        invariant primes == seed[..i]
      {
        primes := primes + [seed[i]];
      }
      assert primes == seed;
      PrimesUpToMembers(seed[|seed| - 1]);
      assert seed[|seed| - 1] in seed;
      highestTestedNum := primes[|primes| - 1];
      sieveLimit := highestTestedNum;
    }

    /** The primes found so far: all primes up to highestTestedNum, ascending, and the i-th
        of them is the i-th prime. */
    function GetCalculatedPrimes(): (r: seq<nat>)
      reads this
      requires Valid()
      ensures StrictlyAscending(r)
      ensures forall x :: x in r <==> 2 <= x <= highestTestedNum && IsPrime(x)
      ensures forall i :: 0 <= i < |r| ==> r[i] == NthPrime(i)
    {
      PrimesUpToAscending(highestTestedNum);
      PrimesUpToMembers(highestTestedNum);
      NthPrimesOfList(highestTestedNum);
      primes
    }

    function GetNumCalculatedPrimes(): (r: nat)
      reads this
      requires Valid()
      ensures r == |GetCalculatedPrimes()|
    {
      |primes|
    }

    /** The index-th prime (from 0), sieving further only when it is not yet known. */
    method GetPrimeNumber(index: nat) returns (p: nat)
      requires Valid()
      modifies this
      ensures Valid() && old(primes) <= primes && highestTestedNum >= old(highestTestedNum)
      ensures index < |primes| && p == primes[index] && p == NthPrime(index)
      ensures index < |old(primes)| ==> unchanged(this)
    {
      Sieve(index + 1);
      p := primes[index];
      NthPrimeAt(highestTestedNum, index);
    }

    /** Sieves segment after segment until at least numPrimes primes are known. */
    method Sieve(numPrimes: nat)
      requires Valid()
      modifies this
      ensures Valid() && old(primes) <= primes && highestTestedNum >= old(highestTestedNum)
      ensures |primes| >= numPrimes
      ensures |old(primes)| >= numPrimes ==> unchanged(this)
    {
      // A prime above everything classified: the loop must reach it, so it terminates.
      ghost var next: nat := PrimeAbove(highestTestedNum);
      while |primes| < numPrimes
        invariant Valid() && old(primes) <= primes && highestTestedNum >= old(highestTestedNum)
        invariant IsPrime(next) && next > highestTestedNum
        invariant |old(primes)| >= numPrimes ==> unchanged(this)
        decreases numPrimes - |primes|, next - highestTestedNum
      {
        ghost var tested := highestTestedNum;
        SieveSegment();
        if next <= highestTestedNum {
          PrimesUpToGrows(tested, next, highestTestedNum);
          next := PrimeAbove(highestTestedNum);
        }
      }
    }

    /** Classifies one segment [min, max] above highestTestedNum and appends its primes. */
    method SieveSegment()
      requires Valid()
      modifies this
      ensures Valid() && old(primes) <= primes
      ensures sieveLimit == GrownLimit(old(sieveLimit), old(highestTestedNum) + 1)
      ensures highestTestedNum == SegmentMax(old(highestTestedNum) + 1, sieveLimit)
      ensures old(highestTestedNum) < highestTestedNum <= sieveLimit
      ensures forall k :: |old(primes)| <= k < |primes| ==> old(highestTestedNum) < primes[k] <= highestTestedNum
    {
      var min := highestTestedNum + 1;
      while sieveLimit <= min
        invariant sieveLimit >= 1 && primes == old(primes) && highestTestedNum == old(highestTestedNum)
        invariant GrownLimit(sieveLimit, min) == GrownLimit(old(sieveLimit), min)
        decreases min + 1 - sieveLimit
      {
        sieveLimit := sieveLimit * 2;
      }
      var root := SquareRoot(sieveLimit);
      var max := if sieveLimit < min + root then sieveLimit else min + root;
      assert max == SegmentMax(min, sieveLimit);
      var bitField := new bool[max - min + 1](_ => true);
      MarkComposites(bitField, min, max);
      CollectPrimes(bitField, min, max);
      highestTestedNum := max;
    }

    /** Strikes out of the segment [min, max] the multiples of every prime found so far. */
    method MarkComposites(bitField: array<bool>, min: nat, max: nat)
      requires Valid() && min == highestTestedNum + 1 && bitField.Length == max - min + 1
      requires forall i :: 0 <= i < bitField.Length ==> bitField[i]
      modifies bitField
      ensures forall i :: 0 <= i < bitField.Length ==> bitField[i] == !Struck(primes, min + i)
    {
      PrimesUpToMembers(highestTestedNum);
      for k := 0 to |primes|
        invariant forall i :: 0 <= i < bitField.Length ==> bitField[i] == !Struck(primes[..k], min + i)
      {
        assert primes[k] in primes;
        CountMultiplesInBitField(bitField, primes[k], min, max);
        forall i | 0 <= i < bitField.Length
          ensures bitField[i] == !Struck(primes[..k + 1], min + i)
        {
          assert primes[..k + 1] == primes[..k] + [primes[k]];
          StruckAppend(primes[..k], primes[k], min + i);
        }
      }
      assert primes[..|primes|] == primes;
    }

    /** Scans the segment left to right: every number still unmarked is prime; it strikes
        out its own multiples in the segment and is appended to the list. */
    method CollectPrimes(bitField: array<bool>, min: nat, max: nat)
      requires min >= 2 && primes == PrimesUpTo(min - 1) && bitField.Length == max - min + 1
      requires forall i :: 0 <= i < bitField.Length ==> bitField[i] == !Struck(primes, min + i)
      modifies this`primes, bitField
      ensures primes == PrimesUpTo(max) && old(primes) <= primes
      ensures forall k :: |old(primes)| <= k < |primes| ==> min <= primes[k] <= max
    {
      var index := 0;
      assert Unmarked(bitField[..], primes, min, 0);
      while index < bitField.Length
        invariant 0 <= index <= bitField.Length
        invariant primes == PrimesUpTo(min + index - 1) && old(primes) <= primes
        invariant forall k :: |old(primes)| <= k < |primes| ==> min <= primes[k] < min + index
        invariant Unmarked(bitField[..], primes, min, index)
      {
        var n := index + min;
        CollectStep(bitField[..], primes, min, index);
        if bitField[index] {
          ghost var before := bitField[..];
          CountMultiplesInBitField(bitField, n, min, max);
          StrikeStep(before, bitField[..], primes, n, min, max, index);
          primes := primes + [n];
        }
        index := index + 1;
      }
    }
  }

  /** Bits [from, |bits|) of a segment starting at min are set exactly for the numbers
      that no prime of ps strikes out. */
  ghost predicate Unmarked(bits: seq<bool>, ps: seq<nat>, min: nat, from: nat)
  {
    forall i :: from <= i < |bits| ==> bits[i] == !Struck(ps, min + i)
  }

  /** The next bit of the scan tells whether the next number is prime, and so how the
      list of primes up to it grows. */
  lemma CollectStep(bits: seq<bool>, ps: seq<nat>, min: nat, index: nat)
    requires min >= 2 && index < |bits| && ps == PrimesUpTo(min + index - 1)
    requires Unmarked(bits, ps, min, index)
    ensures bits[index] <==> IsPrime(min + index)
    ensures PrimesUpTo(min + index) == if bits[index] then ps + [min + index] else ps
  {
    SegmentTest(min + index);
  }

  /** Striking out the multiples of a newly found prime n keeps the segment's bits in step
      with the list extended by n. */
  lemma StrikeStep(before: seq<bool>, after: seq<bool>, ps: seq<nat>, n: nat, min: nat, max: nat, index: nat)
    requires n == min + index && n >= 1 && |before| == |after| == max - min + 1
    requires Unmarked(before, ps, min, index)
    requires forall i :: 0 <= i < |after| ==>
      after[i] == (before[i] && !(min + i <= max && Hit(n, min + i)))
    ensures Unmarked(after, ps + [n], min, index + 1)
  {
    forall i | index + 1 <= i < |after|
      ensures after[i] == !Struck(ps + [n], min + i)
    {
      StruckAppend(ps, n, min + i);
    }
  }

  /** The list of a valid sieve is the sequence of the first primes. */
  lemma NthPrimesOfList(n: nat)
    ensures forall i :: 0 <= i < |PrimesUpTo(n)| ==> PrimesUpTo(n)[i] == NthPrime(i)
  {
    forall i | 0 <= i < |PrimesUpTo(n)|
      ensures PrimesUpTo(n)[i] == NthPrime(i)
    {
      NthPrimeAt(n, i);
    }
  }
}
