/** Client runs of the table, the bag and the iterator on small inputs, with the results
    they must give. */
module Scenarios {
  import opened NumberTheory
  import opened Eratosthenes
  import opened PrimeTables
  import opened PrimeBags

  /** add of a new value while the pool is empty: the value gets the prime at index
      |primeMap| of the sieve's list. */
  method FreshAdd(t: PrimeTable<int>, v: int) returns (p: nat)
    requires t.Valid() && v !in t.primeMap && t.primeHoles == multiset{}
    modifies t, t.sieve
    ensures t.Valid() && t.primeHoles == multiset{} && p == NthPrime(old(|t.primeMap|))
    ensures t.primeMap == old(t.primeMap)[v := p] && t.reversePrimeMap == old(t.reversePrimeMap)[p := v]
  {
    p := t.Add(v);
  }

  /** add of a new value while the pool is not empty: the value gets the largest pooled
      prime. */
  method PooledAdd(t: PrimeTable<int>, v: int) returns (p: nat)
    requires t.Valid() && v !in t.primeMap && t.primeHoles != multiset{}
    modifies t, t.sieve
    ensures t.Valid() && p in old(t.primeHoles) && forall q :: q in old(t.primeHoles) ==> q <= p
    ensures t.primeHoles == old(t.primeHoles) - multiset{p}
    ensures t.primeMap == old(t.primeMap)[v := p]
  {
    p := t.Add(v);
  }

  /** add of a value the table already holds: its prime, and nothing changes. */
  method KnownAdd(t: PrimeTable<int>, v: int) returns (p: nat)
    requires t.Valid() && v in t.primeMap
    modifies t, t.sieve
    ensures t.Valid() && v in t.primeMap && p == t.primeMap[v] && unchanged(t, t.sieve)
  {
    p := t.Add(v);
  }

  /** remove of a value the table holds: its prime goes to the pool. */
  method KnownRemove(t: PrimeTable<int>, v: int) returns (p: nat)
    requires t.Valid() && v in t.primeMap
    modifies t
    ensures t.Valid() && p == old(t.primeMap[v])
    ensures t.primeHoles == old(t.primeHoles) + multiset{p} && t.primeMap == old(t.primeMap) - {v}
    ensures t.reversePrimeMap == old(t.reversePrimeMap) - {p}
  {
    p := t.Remove(v);
  }

  /** The first four primes, without the lists they come from. */
  lemma PrimeValues()
    ensures NthPrime(0) == 2 && NthPrime(1) == 3 && NthPrime(2) == 5 && NthPrime(3) == 7
  {
    FirstPrimes();
  }

  /** A fresh table hands out the primes in order: 2, 3 and 5 to three new values. */
  method FreshTablePrimes() returns (a: nat, b: nat, c: nat)
    ensures a == 2 && b == 3 && c == 5
  {
    var t := new PrimeTable<int>();
    a := FreshAdd(t, 10);
    b := FreshAdd(t, 20);
    c := FreshAdd(t, 30);
    PrimeValues();
  }

  /** Adding a known value again returns its prime and hands out nothing new. */
  method RepeatedAdd() returns (first: nat, again: nat)
    ensures first == 2 && again == 2
  {
    var t := new PrimeTable<int>();
    first := FreshAdd(t, 7);
    again := KnownAdd(t, 7);
    PrimeValues();
  }

  /** Removing a value pools its prime; the next new value gets that prime back rather
      than a fresh one. */
  method RemovedPrimeIsReused() returns (removed: nat, reused: nat)
    ensures removed == 3 && reused == 3
  {
    var t := new PrimeTable<int>();
    var a := FreshAdd(t, 1);
    var b := FreshAdd(t, 2);
    removed := KnownRemove(t, 2);
    reused := PooledAdd(t, 3);
    PrimeValues();
  }

  /** With two primes pooled, the larger one is handed out first. */
  method LargestHoleFirst() returns (first: nat, second: nat)
    ensures first == 5 && second == 3
  {
    var t;
    t, first := LargerHoleTaken();
    second := LastHole(t, 5, 3);
  }

  /** The table of PooledSecondAndThird after a new value took the larger pooled prime. */
  method LargerHoleTaken() returns (t: PrimeTable<int>, first: nat)
    ensures fresh(t) && fresh(t.sieve) && t.Valid()
    ensures first == 5 && t.primeHoles == multiset{3}
    ensures 5 !in t.primeMap
  {
    t := PooledSecondAndThird();
    first := LargerHole(t, 4, 3, 5);
  }

  /** add of a new value with two primes pooled: it gets the larger one. */
  method LargerHole(t: PrimeTable<int>, v: int, ghost small: nat, ghost large: nat) returns (p: nat)
    requires t.Valid() && v !in t.primeMap && t.primeHoles == multiset{small, large} && small < large
    modifies t, t.sieve
    ensures t.Valid() && p == large && t.primeHoles == multiset{small} && t.primeMap == old(t.primeMap)[v := p]
  {
    p := PooledAdd(t, v);
    assert small in old(t.primeHoles);
  }

  /** add of a new value with one prime pooled: it gets that one. */
  method LastHole(t: PrimeTable<int>, v: int, ghost last: nat) returns (p: nat)
    requires t.Valid() && v !in t.primeMap && t.primeHoles == multiset{last}
    modifies t, t.sieve
    ensures t.Valid() && p == last && t.primeHoles == multiset{}
  {
    p := PooledAdd(t, v);
  }

  /** A fresh table after a, b and c got the first three primes and b and c were
      removed. */
  method PooledSecondAndThird() returns (t: PrimeTable<int>)
    ensures fresh(t) && fresh(t.sieve) && t.Valid()
    ensures t.primeHoles == multiset{3, 5}
    ensures 4 !in t.primeMap && 5 !in t.primeMap
  {
    t := ThirdRemoved();
    var r := KnownRemove(t, 2);
  }

  /** A fresh table after a, b and c got the first three primes and c was removed. */
  method ThirdRemoved() returns (t: PrimeTable<int>)
    ensures fresh(t) && fresh(t.sieve) && t.Valid() && t.primeHoles == multiset{5}
    ensures 2 in t.primeMap && t.primeMap[2] == 3
    ensures 4 !in t.primeMap && 5 !in t.primeMap
  {
    t := FirstThreeAdded();
    var r := KnownRemove(t, 3);
  }

  /** A fresh table after a, b and c got the first three primes. */
  method FirstThreeAdded() returns (t: PrimeTable<int>)
    ensures fresh(t) && fresh(t.sieve) && t.Valid() && t.primeHoles == multiset{}
    ensures t.primeMap == map[1 := 2, 2 := 3, 3 := 5]
  {
    t := new PrimeTable<int>();
    var a := FreshAdd(t, 1);
    var b := FreshAdd(t, 2);
    var c := FreshAdd(t, 3);
    PrimeValues();
  }

  /** add of a value the table already holds to a bag: one more copy of its prime. */
  method BagAddKnown(bag: PrimeBag<int>, v: int)
    requires bag.Valid() && bag.table.Valid() && v in bag.table.primeMap
    modifies bag, bag.table, bag.table.sieve
    ensures bag.Valid() && bag.table.Valid() && unchanged(bag.table, bag.table.sieve)
    ensures bag.factors == old(bag.factors) + multiset{bag.table.primeMap[v]}
  {
    bag.Add(v);
  }

  /** A bag over a fresh table holding a twice and b once; a and b get the first two
      primes. */
  method BagOfAAB() returns (bag: PrimeBag<int>)
    ensures bag.Valid() && bag.table.Valid()
    ensures fresh(bag) && fresh(bag.table) && fresh(bag.table.sieve)
    ensures bag.table.primeMap == map[1 := 2, 2 := 3] && bag.factors == multiset{2, 2, 3}
  {
    var t := TwoAdded();
    bag := new PrimeBag<int>(t);
    BagAddKnown(bag, 1);
    BagAddKnown(bag, 1);
    BagAddKnown(bag, 2);
  }

  /** A fresh table after a and b got the first two primes. */
  method TwoAdded() returns (t: PrimeTable<int>)
    ensures fresh(t) && fresh(t.sieve) && t.Valid() && t.primeHoles == multiset{}
    ensures t.primeMap == map[1 := 2, 2 := 3] && t.reversePrimeMap == map[2 := 1, 3 := 2]
  {
    t := new PrimeTable<int>();
    var a := FreshAdd(t, 1);
    var b := FreshAdd(t, 2);
    PrimeValues();
  }

  /** A bag holding a, a and b over a fresh table, where a gets 2 and b gets 3: its hash
      is 2 * 2 * 3 = 12, its size 3, and it holds a twice. */
  method BagOfThree() returns (hash: nat, size: nat, copies: nat, holdsB: bool)
    ensures hash == 12 && size == 3 && copies == 2 && holdsB
  {
    var bag := BagOfAAB();
    size := bag.Size();
    copies := bag.Count(1);
    holdsB := bag.Contains(2);
    hash := bag.hash;
    ProductOfTwelve();
  }

  lemma ProductOfTwelve()
    ensures Product(multiset{2, 2, 3}) == 12
  {
    var m: multiset<nat> := multiset{2, 2, 3};
    ProductRemove(m, 3);
    assert m - multiset{3} == multiset{2, 2};
    ProductRemove(multiset{2, 2}, 2);
    assert multiset{2, 2} - multiset{2} == multiset{2};
    ProductRemove(multiset{2}, 2);
    assert multiset{2} - multiset{2} == multiset{};
  }

  /** Multiplying a prime into an encoding and dividing it out again gives back the same
      hash and length. */
  method AddThenRemove(hash: nat, length: nat, ghost factors: multiset<nat>, prime: nat)
    returns (done: bool, hash': nat, length': nat)
    requires Encodes(hash, length, factors) && IsPrime(prime)
    ensures done && hash' == hash && length' == length
  {
    var h, l;
    ghost var f;
    h, l, f := MultiplyIn(hash, length, factors, prime);
    ghost var back;
    done, hash', length', back := DivideOutPrime(h, l, f, prime);
    assert back == factors;
  }

  /** Adding a bag over the same table and then removing it restores the bag exactly:
      its elements, its hash and its length. */
  method AddBagThenRemoveBag(a: PrimeBag<int>, b: PrimeBag<int>) returns (removed: bool)
    requires a.Valid() && b.Valid() && a != b && a.table == b.table
    modifies a
    ensures removed && a.factors == old(a.factors) && a.hash == old(a.hash) && a.length == old(a.length)
  {
    a.AddBag(b);
    removed := a.RemoveBag(b);
    assert a.factors == old(a.factors) + b.factors - b.factors;
  }

  /** With a holding 2, and b 3: bag1 holds a twice and b once, bag2 holds a once. Removing
      bag2 from bag1 succeeds and leaves a and b once each; removing bag1 from bag2 fails,
      as bag1 holds more, and leaves bag2 holding a once. */
  method RemoveSubBag() returns (removed1: bool, countA1: nat, countB1: nat,
                                 removed2: bool, countA2: nat, size2: nat)
    ensures removed1 && countA1 == 1 && countB1 == 1
    ensures !removed2 && countA2 == 1 && size2 == 1
  {
    var bag1, bag2;
    bag1, bag2, removed1 := SmallerBagRemoved();
    countA1 := BagCount(bag1, 1);
    countB1 := BagCount(bag1, 2);
    removed2 := BagRemoveBag(bag2, bag1);
    countA2 := BagCount(bag2, 1);
    size2 := bag2.Size();
  }

  /** The bags of BagsOfAABAndA after bag2 was removed from bag1. */
  method SmallerBagRemoved() returns (bag1: PrimeBag<int>, bag2: PrimeBag<int>, removed: bool)
    ensures fresh(bag2) && bag1.Valid() && bag2.Valid() && bag1.table == bag2.table
    ensures bag1.table.Valid() && bag1.table.primeMap == map[1 := 2, 2 := 3]
    ensures removed && bag1.factors == multiset{2, 3} && bag2.factors == multiset{2}
  {
    bag1, bag2 := BagsOfAABAndA();
    removed := BagRemoveBag(bag1, bag2);
    assert multiset{2, 2, 3} - multiset{2} == multiset{2, 3};
  }

  /** remove(bag) on a bag over the same table, as RemoveBag states it. */
  method BagRemoveBag(a: PrimeBag<int>, b: PrimeBag<int>) returns (removed: bool)
    requires a.Valid() && b.Valid() && a.table == b.table
    modifies a
    ensures a.Valid() && (removed <==> old(b.factors) <= old(a.factors))
    ensures a.factors == if removed then old(a.factors) - old(b.factors) else old(a.factors)
  {
    removed := a.RemoveBag(b);
  }

  /** count(v) for a value the table holds: the multiplicity of its prime. */
  method BagCount(bag: PrimeBag<int>, v: int) returns (result: nat)
    requires bag.Valid() && bag.table.Valid() && v in bag.table.primeMap
    ensures result == bag.factors[bag.table.primeMap[v]]
  {
    result := bag.Count(v);
  }

  /** bag1 of BagOfAAB and a second bag over its table holding a once. */
  method BagsOfAABAndA() returns (bag1: PrimeBag<int>, bag2: PrimeBag<int>)
    ensures fresh(bag1) && fresh(bag2) && bag1.Valid() && bag2.Valid() && bag1.table == bag2.table
    ensures bag1.table.Valid() && bag1.table.primeMap == map[1 := 2, 2 := 3]
    ensures bag1.factors == multiset{2, 2, 3} && bag2.factors == multiset{2}
  {
    bag1 := BagOfAAB();
    bag2 := new PrimeBag<int>(bag1.table);
    BagAddKnown(bag2, 1);
  }

  /** On an empty bag, begin() and end() are equal iterators. */
  method EmptyBagIterators() returns (same: bool)
    ensures same
  {
    var t := new PrimeTable<int>();
    var bag := new PrimeBag<int>(t);
    var first := new PrimeBagIterator(bag, false);
    var last := new PrimeBagIterator(bag, true);
    first.ElemsInOrder();
    last.ElemsInOrder();
    same := first.Equals(last);
  }

  /** A bag over a fresh table holding one value. */
  method OneElementBag() returns (bag: PrimeBag<int>)
    ensures bag.Valid() && bag.table.sieve.Valid() && bag.length == 1
    ensures forall p :: p in bag.factors ==> p in bag.table.sieve.primes
  {
    var t := new PrimeTable<int>();
    var p := FreshAdd(t, 1);
    bag := new PrimeBag<int>(t);
    BagAddKnown(bag, 1);
    t.IssuedArePrimes();
  }

  /** operator-- on end() of a bag with one element: as the source has it, the iterator
      stays at end(); with the guard corrected it moves to the element. */
  method OneElementEndDecrement() returns (stuckAtEnd: bool, movedBack: bool)
    ensures stuckAtEnd && movedBack
  {
    var bag := OneElementBag();
    stuckAtEnd := EndDecrementAsWritten(bag);
    movedBack := EndDecrementCorrected(bag);
  }

  /** operator-- as the source has it, on end() of a bag with one element: the result
      still equals end(). */
  method EndDecrementAsWritten(bag: PrimeBag<int>) returns (stuckAtEnd: bool)
    requires bag.Valid() && bag.table.sieve.Valid() && bag.length == 1
    requires forall p :: p in bag.factors ==> p in bag.table.sieve.primes
    ensures stuckAtEnd
  {
    var last := new PrimeBagIterator(bag, true);
    last.ElemsInOrder();
    var asWritten := new PrimeBagIterator(bag, true);
    asWritten.ElemsInOrder();
    asWritten.Decrement();
    stuckAtEnd := asWritten.Equals(last);
  }

  /** operator-- with the guard corrected, on end() of a bag with one element: the result
      differs from end(). */
  method EndDecrementCorrected(bag: PrimeBag<int>) returns (movedBack: bool)
    requires bag.Valid() && bag.table.sieve.Valid() && bag.length == 1
    requires forall p :: p in bag.factors ==> p in bag.table.sieve.primes
    ensures movedBack
  {
    var last := new PrimeBagIterator(bag, true);
    last.ElemsInOrder();
    var corrected := new PrimeBagIterator(bag, true);
    corrected.ElemsInOrder();
    corrected.DecrementFixed();
    movedBack := !corrected.Equals(last);
  }

  /** A fresh table after a and b got the first two primes and b was removed. */
  method PooledSecond() returns (t: PrimeTable<int>)
    ensures fresh(t) && t.Valid() && t.primeHoles == multiset{3}
    ensures t.primeMap == map[1 := 2] && t.reversePrimeMap == map[2 := 1]
  {
    t := TwoAdded();
    var r := KnownRemove(t, 2);
    assert t.reversePrimeMap == map[2 := 1];
  }

  /** clear() as the source has it, after a and b got 2 and 3 and b was removed: the maps
      are empty but 3 stays pooled, while 3 is also the prime at index 1 of the sieve's
      list. The next add then takes the pooled 3 and the one after it draws index 1, so
      two values would hold 3; the table's bookkeeping no longer holds. */
  method ClearKeepsPool() returns (t: PrimeTable<int>)
    ensures t.primeMap == map[] && t.reversePrimeMap == map[] && t.primeHoles == multiset{3}
    ensures |t.sieve.primes| >= 2 && t.sieve.primes[1] == 3
    ensures !t.Valid()
  {
    t := PooledSecond();
    KeptPool(t.sieve.primes, t.sieve.highestTestedNum, t.issued);
    t.ClearKeepingPool();
  }

  /** add() of a new value while primes are pooled, on the maps alone and without the
      table's invariant: the value takes prime, the largest pooled prime, which leaves the
      pool (the new state PrimeTable.TakeHole states). */
  ghost predicate PooledStep<V>(m: map<V, nat>, r: map<nat, V>, h: multiset<nat>, v: V, prime: nat,
                         m': map<V, nat>, r': map<nat, V>, h': multiset<nat>)
  {
    && v !in m && prime in h && (forall q :: q in h ==> q <= prime)
    && h' == h - multiset{prime} && m' == m[v := prime] && r' == r[prime := v]
  }

  /** add() of a new value while the pool is empty, on the maps alone and without the
      table's invariant: the value takes prime, the entry at index |m| of the sieve's list
      ps (the new state PrimeTable.DrawFresh states). */
  ghost predicate FreshStep<V>(m: map<V, nat>, r: map<nat, V>, h: multiset<nat>, ps: seq<nat>, v: V,
                        prime: nat, m': map<V, nat>, r': map<nat, V>, h': multiset<nat>)
  {
    && v !in m && h == multiset{} && |m| < |ps| && prime == ps[|m|]
    && h' == h && m' == m[v := prime] && r' == r[prime := v]
  }

  /** From the state clear() as written leaves (empty maps, 3 pooled, 3 at index 1 of the
      sieve's list), adding c takes the pooled 3 and adding d then draws index 1, which is 3
      again: c and d hold the same prime, and the reverse map no longer sends c's prime
      back to c. */
  lemma SharedPrimeAfterClear(ps: seq<nat>, c: int, d: int, pc: nat, pd: nat,
                              m1: map<int, nat>, r1: map<nat, int>, h1: multiset<nat>,
                              m2: map<int, nat>, r2: map<nat, int>, h2: multiset<nat>)
    requires |ps| >= 2 && ps[1] == 3 && c != d
    requires PooledStep(map[], map[], multiset{3}, c, pc, m1, r1, h1)
    requires FreshStep(m1, r1, h1, ps, d, pd, m2, r2, h2)
    ensures m2 == map[c := 3, d := 3] && r2 == map[3 := d]
    ensures m2[c] == m2[d] && r2[m2[c]] != c
  {
    assert pc == 3 by { assert multiset{3}[pc] > 0; }
    assert |m1| == 1 by { assert m1.Keys == {c}; }
  }

  /** With 2 assigned and 3 pooled, two primes were issued, 3 is at index 1, and the
      bookkeeping fails once the maps are emptied with 3 still pooled. */
  lemma KeptPool(ps: seq<nat>, highest: nat, issued: nat)
    requires ps == PrimesUpTo(highest)
    requires Accounted(map[1 := 2], map[2 := 1], multiset{3}, ps, issued)
    ensures issued == 2 && |ps| >= 2 && ps[1] == 3
    ensures !Accounted<int>(map[], map[], multiset{3}, ps, issued)
  {
    PooledAccount(ps, issued);
    IssuedTwo(ps, highest, issued);
    ClearedUnaccounted(ps);
  }

  lemma PooledAccount(ps: seq<nat>, issued: nat)
    requires Accounted(map[1 := 2], map[2 := 1], multiset{3}, ps, issued)
    ensures issued <= |ps| && multiset(ps[..issued]) == multiset{2, 3}
  {
    assert map[2 := 1].Keys == {2};
  }

  lemma ClearedUnaccounted(ps: seq<nat>)
    requires |ps| >= 2 && ps[0] == 2
    ensures !Accounted<int>(map[], map[], multiset{3}, ps, 2)
  {
    assert ps[..2][0] == 2;
    assert 2 in multiset(ps[..2]);
  }

  lemma IssuedTwo(ps: seq<nat>, highest: nat, issued: nat)
    requires ps == PrimesUpTo(highest) && issued <= |ps|
    requires multiset(ps[..issued]) == multiset{2, 3}
    ensures issued == 2 && ps[0] == 2 && ps[1] == 3
  {
    assert |ps[..issued]| == 2;
    NthPrimeAt(highest, 0);
    NthPrimeAt(highest, 1);
    PrimeValues();
  }
}
