/** The prime-encoded bag: a multiset of values stored as the product of the values'
    table primes together with the number of elements, and its bidirectional iterator. */
module PrimeBags {
  import opened NumberTheory
  import opened Eratosthenes
  import opened PrimeTables

  /** Whether hash contains otherHash, that is, otherHash divides it: the test behind
      containment and removal. */
  function ContainsHash(hash: nat, otherHash: nat): bool
    requires otherHash > 0
  {
    Divides(otherHash, hash)
  }

  /** hash contains otherHash exactly when hash is a whole multiple of it. */
  lemma ContainsHashIsMultiple(hash: nat, otherHash: nat)
    requires otherHash > 0
    ensures ContainsHash(hash, otherHash) <==> exists k: nat :: hash == k * otherHash
  {
    if ContainsHash(hash, otherHash) {
      DivExact(hash, otherHash);
      assert hash == (hash / otherHash) * otherHash;
    }
    if exists k: nat :: hash == k * otherHash {
      var k: nat :| hash == k * otherHash;
      MulMod(otherHash, k);
    }
  }

  /** On products of primes, containment of hashes is containment of the multisets. */
  lemma ContainsHashOfProducts(a: multiset<nat>, b: multiset<nat>)
    requires AllPrime(a) && AllPrime(b)
    ensures Product(b) >= 1
    ensures ContainsHash(Product(a), Product(b)) <==> b <= a
    ensures b <= a ==> Product(a) / Product(b) == Product(a - b)
  {
    ProductDivides(a, b);
  }

  /** Multiplying a product by p adds p to its multiset. */
  lemma ProductTimes(m: multiset<nat>, p: nat)
    ensures Product(m) * p == Product(m + multiset{p})
  {
    ProductAdd(m, p);
  }

  /** Dividing a product by one of its elements takes that element out. */
  lemma ProductDividedBy(m: multiset<nat>, p: nat)
    requires p in m && p > 0
    ensures Divides(p, Product(m)) && Product(m) / p == Product(m - multiset{p})
  {
    ProductRemove(m, p);
    MulMod(p, Product(m - multiset{p}));
  }

  /** How often prime divides hash, dividing it out one copy at a time. */
  method Multiplicity(hash: nat, ghost factors: multiset<nat>, prime: nat) returns (result: nat)
    requires IsPrime(prime) && AllPrime(factors) && hash == Product(factors)
    ensures result == factors[prime]
    ensures ExactPower(prime, result, hash)
  {
    result := 0;
    var hashCopy := hash;
    ghost var rest := factors;
    while ContainsHash(hashCopy, prime)
      invariant Split(factors, rest, prime, result) && hashCopy == Product(rest)
      decreases |rest|
    {
      hashCopy, rest := DivideCopy(prime, hashCopy, factors, rest, result);
      result := result + 1;
    }
    CountFinished(factors, rest, prime, result);
  }

  /** p to the k divides n, and p to the k + 1 does not. */
  ghost predicate ExactPower(p: nat, k: nat, n: nat)
    requires p >= 1
  {
    Divides(Power(p, k), n) && !Divides(Power(p, k + 1), n)
  }

  /** whole is what is left, rest, together with k copies of p. */
  ghost predicate Split(whole: multiset<nat>, rest: multiset<nat>, p: nat, k: nat)
  {
    rest <= whole && whole == rest + Copies(p, k)
  }

  /** One round of Count: a prime dividing what is left of a product of primes is one
      more copy of it taken out. */
  lemma DivideOut(whole: multiset<nat>, rest: multiset<nat>, p: nat, k: nat)
    requires IsPrime(p) && AllPrime(whole) && rest <= whole && whole == rest + Copies(p, k)
    requires ContainsHash(Product(rest), p)
    ensures Product(rest) / p == Product(rest - multiset{p})
    ensures rest - multiset{p} <= whole
    ensures whole == rest - multiset{p} + Copies(p, k + 1)
    ensures |rest - multiset{p}| < |rest|
  {
    PrimesWithin(whole, rest);
    PrimeDividesProduct(rest, p);
    ProductDividedBy(rest, p);
    assert rest == rest - multiset{p} + multiset{p};
  }

  /** Part of a multiset of primes is one too. */
  lemma PrimesWithin(whole: multiset<nat>, part: multiset<nat>)
    requires AllPrime(whole) && part <= whole
    ensures AllPrime(part)
  {
  }

  lemma CountFinished(whole: multiset<nat>, rest: multiset<nat>, p: nat, k: nat)
    requires IsPrime(p) && AllPrime(whole) && Split(whole, rest, p, k)
    requires !ContainsHash(Product(rest), p)
    ensures k == whole[p]
    ensures ExactPower(p, k, Product(whole))
  {
    PrimesWithin(whole, rest);
    PrimeDividesProduct(rest, p);
    PowerDividesProduct(whole, p, k);
    PowerDividesProduct(whole, p, k + 1);
  }

  /** Once p no longer divides the product of what is left, no copy of p is left. */
  lemma CopiesExhausted(whole: multiset<nat>, rest: multiset<nat>, p: nat, k: nat)
    requires IsPrime(p) && AllPrime(whole) && Split(whole, rest, p, k)
    requires !ContainsHash(Product(rest), p)
    ensures p !in rest && AllPrime(rest)
  {
    PrimesWithin(whole, rest);
    PrimeDividesProduct(rest, p);
  }

  /** A contained multiset is no larger, and the difference makes up the rest. */
  lemma SubmultisetSize(a: multiset<nat>, b: multiset<nat>)
    ensures b <= a ==> |b| <= |a| && |a - b| == |a| - |b|
  {
    if b <= a {
      assert a == b + (a - b);
    }
  }

  /** k copies of p, in a row. */
  ghost function Repeat(p: nat, k: nat): (s: seq<nat>)
    ensures |s| == k && forall i :: 0 <= i < k ==> s[i] == p
  {
    if k == 0 then [] else Repeat(p, k - 1) + [p]
  }

  lemma RepeatCount(p: nat, k: nat)
    ensures multiset(Repeat(p, k)) == Copies(p, k)
  {
    if k > 0 {
      RepeatCount(p, k - 1);
    }
  }

  /** The elements of m listed in the order of ps, each as often as m holds it: the order
      in which a bag lists and iterates its elements. */
  ghost function Order(ps: seq<nat>, m: multiset<nat>): seq<nat>
  {
    if |ps| == 0 then []
    else Order(ps[..|ps| - 1], m) + Repeat(ps[|ps| - 1], m[ps[|ps| - 1]])
  }

  /** Each element appears in Order(ps, m) as often as in m when ps lists it, else not. */
  lemma {:induction false} OrderCount(ps: seq<nat>, m: multiset<nat>)
    requires StrictlyAscending(ps)
    ensures forall x :: multiset(Order(ps, m))[x] == if x in ps then m[x] else 0
  {
    if |ps| > 0 {
      var init, last := ps[..|ps| - 1], ps[|ps| - 1];
      assert StrictlyAscending(init);
      OrderCount(init, m);
      RepeatCount(last, m[last]);
      assert ps == init + [last];
      assert last !in init;
    }
  }

  /** Order(ps, m) is non-decreasing, and every element of it is one of ps. */
  lemma {:induction false} OrderSorted(ps: seq<nat>, m: multiset<nat>)
    requires StrictlyAscending(ps)
    ensures forall i, j :: 0 <= i <= j < |Order(ps, m)| ==> Order(ps, m)[i] <= Order(ps, m)[j]
    ensures forall i :: 0 <= i < |Order(ps, m)| ==> Order(ps, m)[i] in ps
  {
    if |ps| > 0 {
      var init, last := ps[..|ps| - 1], ps[|ps| - 1];
      assert StrictlyAscending(init);
      OrderSorted(init, m);
      var front, back := Order(init, m), Repeat(last, m[last]);
      assert Order(ps, m) == front + back;
      forall i | 0 <= i < |front|
        ensures front[i] < last
      {
        assert front[i] in init;
      }
    }
  }

  /** When the first j primes of ps already cover m, the rest of ps adds nothing. */
  lemma {:induction false} OrderPrefix(ps: seq<nat>, m: multiset<nat>, j: nat)
    requires StrictlyAscending(ps) && j <= |ps|
    requires forall x :: x in m ==> x in ps[..j]
    ensures Order(ps, m) == Order(ps[..j], m)
    decreases |ps|
  {
    if j < |ps| {
      var init, last := ps[..|ps| - 1], ps[|ps| - 1];
      assert StrictlyAscending(init);
      assert init[..j] == ps[..j];
      assert last !in ps[..j];
      assert m[last] == 0;
      OrderPrefix(init, m, j);
    } else {
      assert ps[..j] == ps;
    }
  }

  /** Every element of m is one of the first j primes of ps. */
  ghost predicate Covered(ps: seq<nat>, m: multiset<nat>, j: nat)
    requires j <= |ps|
  {
    forall x :: x in m ==> x in ps[..j]
  }

  /** The values that the primes of o belong to, in the same order. */
  ghost function Lookup<V>(o: seq<nat>, backward: map<nat, V>): (r: seq<V>)
    requires forall i :: 0 <= i < |o| ==> o[i] in backward
    ensures |r| == |o| && forall i :: 0 <= i < |o| ==> r[i] == backward[o[i]]
  {
    seq(|o|, i requires 0 <= i < |o| => backward[o[i]])
  }

  /** hash and length encode the multiset of primes factors: hash is their product and
      length their number. */
  ghost predicate Encodes(hash: nat, length: nat, factors: multiset<nat>)
  {
    AllPrime(factors) && hash == Product(factors) && length == |factors|
  }

  /** hash *= prime, ++length: the encoding of factors with one more copy of prime. */
  method MultiplyIn(hash: nat, length: nat, ghost factors: multiset<nat>, prime: nat)
    returns (hash': nat, length': nat, ghost factors': multiset<nat>)
    requires Encodes(hash, length, factors) && IsPrime(prime)
    ensures factors' == factors + multiset{prime} && Encodes(hash', length', factors')
  {
    ProductTimes(factors, prime);
    hash', length', factors' := hash * prime, length + 1, factors + multiset{prime};
  }

  /** hash *= otherHash, length += otherLength: the encoding of the union of two encoded
      multisets. */
  method Combine(hash: nat, length: nat, ghost factors: multiset<nat>,
                 otherHash: nat, otherLength: nat, ghost other: multiset<nat>)
    returns (hash': nat, length': nat, ghost factors': multiset<nat>)
    requires Encodes(hash, length, factors) && Encodes(otherHash, otherLength, other)
    ensures factors' == factors + other && Encodes(hash', length', factors')
  {
    ProductUnion(factors, other);
    hash', length', factors' := hash * otherHash, length + otherLength, factors + other;
  }

  /** Divides otherHash out of hash when otherLength <= length and otherHash divides hash:
      that succeeds exactly when other is contained in factors, and leaves the encoding of
      the difference; otherwise the encoding is unchanged. */
  method Subtract(hash: nat, length: nat, ghost factors: multiset<nat>,
                  otherHash: nat, otherLength: nat, ghost other: multiset<nat>)
    returns (done: bool, hash': nat, length': nat, ghost factors': multiset<nat>)
    requires Encodes(hash, length, factors) && Encodes(otherHash, otherLength, other)
    ensures done <==> other <= factors
    ensures factors' == (if done then factors - other else factors) && Encodes(hash', length', factors')
  {
    ContainsHashOfProducts(factors, other);
    SubmultisetSize(factors, other);
    done, hash', length', factors' := false, hash, length, factors;
    if otherLength <= length {
      if ContainsHash(hash, otherHash) {
        done, hash', length', factors' := true, hash / otherHash, length - otherLength, factors - other;
      }
    }
  }

  /** Divides prime out of hash when it divides it: that succeeds exactly when prime is one
      of factors, and leaves the encoding with one copy fewer; otherwise nothing changes. */
  method DivideOutPrime(hash: nat, length: nat, ghost factors: multiset<nat>, prime: nat)
    returns (done: bool, hash': nat, length': nat, ghost factors': multiset<nat>)
    requires Encodes(hash, length, factors) && IsPrime(prime)
    ensures done <==> prime in factors
    ensures factors' == (if done then factors - multiset{prime} else factors) && Encodes(hash', length', factors')
  {
    PrimeDividesProduct(factors, prime);
    done, hash', length', factors' := false, hash, length, factors;
    if ContainsHash(hash, prime) {
      ProductDividedBy(factors, prime);
      done, hash', length', factors' := true, hash / prime, length - 1, factors - multiset{prime};
    }
  }

  class PrimeBag<V(==)> {
    /** The table the bag takes its primes from; bags combine only over the same one. */
    const table: PrimeTable<V>
    /** The product of the primes of the elements. */
    var hash: nat
    /** The number of elements. */
    var length: nat
    /** The primes of the elements, with multiplicity. */
    ghost var factors: multiset<nat>

    /** hash is the product of the element primes and length counts them. */
    ghost predicate Valid()
      reads this
    {
      Encodes(hash, length, factors)
    }

    /** An empty bag over table. */
    constructor (table: PrimeTable<V>)
      ensures Valid() && this.table == table && factors == multiset{}
      ensures hash == 1 && length == 0
    {
      this.table := table;
      hash := 1;
      length := 0;
      factors := multiset{};
    }

    /** Adds value, assigning it a prime in the table when it has none. */
    method Add(value: V)
      requires Valid() && table.Valid()
      modifies this, table, table.sieve
      ensures Valid()
      ensures table.Valid()
      ensures old(table.sieve.primes) <= table.sieve.primes
      ensures value in table.primeMap && factors == old(factors) + multiset{table.primeMap[value]}
      ensures value in old(table.primeMap) ==> unchanged(table, table.sieve)
      ensures value !in old(table.primeMap) ==>
        && table.primeMap == old(table.primeMap)[value := table.primeMap[value]]
        && table.reversePrimeMap == old(table.reversePrimeMap)[table.primeMap[value] := value]
      ensures value !in old(table.primeMap) && old(table.primeHoles) != multiset{} ==>
        && table.primeMap[value] in old(table.primeHoles)
        && (forall q :: q in old(table.primeHoles) ==> q <= table.primeMap[value])
        && table.primeHoles == old(table.primeHoles) - multiset{table.primeMap[value]}
        && unchanged(table.sieve)
      ensures value !in old(table.primeMap) && old(table.primeHoles) == multiset{} ==>
        table.primeMap[value] == NthPrime(old(|table.primeMap|)) && table.primeHoles == multiset{}
    {
      var prime := table.Add(value);
      hash, length, factors := MultiplyIn(hash, length, factors, prime);
    }

    /** Adds every element of bag, provided it uses the same table; otherwise nothing
        changes. bag may be this bag itself. */
    method AddBag(bag: PrimeBag<V>)
      requires Valid() && bag.Valid()
      modifies this
      ensures Valid()
      ensures factors == if bag.table == table then old(factors) + old(bag.factors) else old(factors)
    {
      if bag.table == table {
        hash, length, factors := Combine(hash, length, factors, bag.hash, bag.length, bag.factors);
      }
    }

    /** Takes out every element of bag when all of them are present and bag uses the same
        table, and reports whether it did; otherwise nothing changes. */
    method RemoveBag(bag: PrimeBag<V>) returns (removed: bool)
      requires Valid() && bag.Valid()
      modifies this
      ensures Valid()
      ensures removed <==> bag.table == table && old(bag.factors) <= old(factors)
      ensures factors == if removed then old(factors) - old(bag.factors) else old(factors)
    {
      removed := false;
      if bag.table == table {
        removed, hash, length, factors := Subtract(hash, length, factors, bag.hash, bag.length, bag.factors);
      }
    }

    /** Takes out one copy of value when the bag holds it, and reports whether it did;
        otherwise nothing changes. */
    method Remove(value: V) returns (removed: bool)
      requires Valid() && table.Valid()
      modifies this
      ensures Valid()
      ensures removed <==> value in table.primeMap && table.primeMap[value] in old(factors)
      ensures factors == if removed then old(factors) - multiset{table.primeMap[value]} else old(factors)
    {
      var prime := table.GetPrime(value);
      removed := false;
      if prime != 0 {
        removed, hash, length, factors := DivideOutPrime(hash, length, factors, prime);
      }
    }

    /** Empties the bag; the table keeps its assignments. */
    method Clear()
      modifies this
      ensures Valid() && factors == multiset{}
    {
      hash := 1;
      length := 0;
      factors := multiset{};
    }

    /** Whether the bag holds value. */
    function Contains(value: V): (r: bool)
      reads this, table, table.sieve
      requires Valid() && table.Valid()
      ensures r <==> value in table.primeMap && table.primeMap[value] in factors
    {
      var prime := table.GetPrime(value);
      PrimeDividesProductOf(prime);
      prime != 0 && ContainsHash(hash, prime)
    }

    lemma PrimeDividesProductOf(prime: nat)
      requires Valid() && table.Valid()
      requires prime == 0 || IsPrime(prime)
      ensures prime != 0 ==> (ContainsHash(hash, prime) <==> prime in factors)
    {
      if prime != 0 {
        PrimeDividesProduct(factors, prime);
      }
    }

    /** The number of elements, with multiplicity. */
    function Size(): (r: nat)
      reads this
      requires Valid()
      ensures r == |factors|
    {
      length
    }

    /** How many copies of value the bag holds: the largest k such that value's prime to
        the k divides hash, and 0 when value has no prime. */
    method Count(value: V) returns (result: nat)
      requires Valid() && table.Valid()
      ensures value !in table.primeMap ==> result == 0
      ensures value in table.primeMap ==>
        && IsPrime(table.primeMap[value])
        && result == factors[table.primeMap[value]]
        && ExactPower(table.primeMap[value], result, hash)
    {
      var prime := table.GetPrime(value);
      result := 0;
      if prime != 0 {
        result := Multiplicity(hash, factors, prime);
      }
    }

    /** The elements as a list: in the order of the sieve's primes, each value as often as
        the bag holds it. Fails when a prime it visits before it has listed every element
        belongs to no value. */
    method AsVector() returns (r: Result<seq<V>>)
      requires Valid() && table.Valid()
      ensures var ps := table.sieve.primes;
        r.Ok? <==> forall k :: 0 <= k < |ps| && !Covered(ps, factors, k) ==> ps[k] in table.reversePrimeMap
      ensures r.Ok? ==>
        var o := Order(table.sieve.primes, factors);
        && |r.value| == |o|
        && forall i :: 0 <= i < |o| ==> o[i] in table.reversePrimeMap && r.value[i] == table.reversePrimeMap[o[i]]
      ensures r.Ok? && (forall p :: p in factors ==> p in table.sieve.primes) ==> |r.value| == length
    {
      var ps := table.GetPrimeNumbers();
      r := ListValues(ps, hash, length, factors, table.reversePrimeMap);
    }
  }

  /** The listing loop of AsVector: walks ps while elements remain, looks each prime up in
      backward as the table's getValue does, and emits its value once per copy of the prime
      in hash. */
  method ListValues<V>(ps: seq<nat>, hash: nat, length: nat, ghost factors: multiset<nat>, backward: map<nat, V>)
    returns (r: Result<seq<V>>)
    requires StrictlyAscending(ps) && forall p :: p in ps ==> IsPrime(p)
    requires AllPrime(factors) && hash == Product(factors) && length == |factors|
    ensures r.Ok? <==> forall k :: 0 <= k < |ps| && !Covered(ps, factors, k) ==> ps[k] in backward
    ensures r.Ok? ==>
      var o := Order(ps, factors);
      && (forall i :: 0 <= i < |o| ==> o[i] in backward)
      && r.value == Lookup(o, backward)
    ensures r.Ok? && (forall p :: p in factors ==> p in ps) ==> |r.value| == length
  {
    var hashCopy, counter := hash, length;
    var result: seq<V> := [];
    ghost var emitted: seq<nat> := [];
    ghost var rest := factors;
    var j := 0;
    while j < |ps| && counter > 0
      invariant 0 <= j <= |ps|
      invariant ListedSoFar(ps, factors, backward, j, emitted, rest, result)
      invariant hashCopy == Product(rest) && counter == |rest|
      invariant forall k :: 0 <= k < j ==> ps[k] in backward
      decreases |ps| - j
    {
      var prime := ps[j];
      if prime !in backward {
        ListingFails(ps, factors, backward, j, emitted, rest, result);
        return OutOfRange;
      }
      var value := backward[prime];
      ghost var left, copies;
      ghost var listed := result;
      hashCopy, counter, result, left, copies := EmitCopies(prime, value, hashCopy, counter, result, rest);
      ListingStep(ps, factors, backward, j, emitted, rest, listed, left, copies, result);
      emitted := emitted + Repeat(prime, copies);
      rest := left;
      j := j + 1;
    }
    ListingSucceeds(ps, factors, backward, j, emitted, rest, result);
    r := Ok(result);
  }

  /** The listing loop reaching a prime that belongs to no value while elements remain
      is the failure case of ListValues. */
  lemma ListingFails<V>(ps: seq<nat>, m: multiset<nat>, backward: map<nat, V>, j: nat,
                        emitted: seq<nat>, rest: multiset<nat>, result: seq<V>)
    requires ListedSoFar(ps, m, backward, j, emitted, rest, result) && j < |ps| && |rest| > 0
    requires ps[j] !in backward
    ensures !forall k :: 0 <= k < |ps| && !Covered(ps, m, k) ==> ps[k] in backward
  {
    ListingMissing(ps, m, backward, j, emitted, rest, result);
  }

  /** The listing loop stopping with every prime it visited assigned is the success case
      of ListValues. */
  lemma ListingSucceeds<V>(ps: seq<nat>, m: multiset<nat>, backward: map<nat, V>, j: nat,
                           emitted: seq<nat>, rest: multiset<nat>, result: seq<V>)
    requires ListedSoFar(ps, m, backward, j, emitted, rest, result)
    requires (forall k :: 0 <= k < j ==> ps[k] in backward) && (j < |ps| ==> |rest| == 0)
    ensures forall k :: 0 <= k < |ps| && !Covered(ps, m, k) ==> ps[k] in backward
    ensures var o := Order(ps, m);
      && (forall i :: 0 <= i < |o| ==> o[i] in backward)
      && result == Lookup(o, backward)
    ensures (forall p :: p in m ==> p in ps) ==> |result| == |m|
  {
    ListingDone(ps, m, j, emitted);
  }

  /** The state of the listing loop after the first j primes of ps: emitted lists, in
      order, the copies of those primes in m, rest is what remains of m, and result holds
      the values of emitted. */
  ghost predicate ListedSoFar<V>(ps: seq<nat>, m: multiset<nat>, backward: map<nat, V>, j: nat,
                                 emitted: seq<nat>, rest: multiset<nat>, result: seq<V>)
  {
    && j <= |ps| && StrictlyAscending(ps)
    && emitted == Order(ps[..j], m) && multiset(emitted) <= m
    && rest == m - multiset(emitted) && AllPrime(rest)
    && (forall i :: 0 <= i < |emitted| ==> emitted[i] in backward)
    && result == Lookup(emitted, backward)
  }

  /** A prime the loop reaches while elements remain is one that the bag needs. */
  lemma ListingMissing<V>(ps: seq<nat>, m: multiset<nat>, backward: map<nat, V>, j: nat,
                          emitted: seq<nat>, rest: multiset<nat>, result: seq<V>)
    requires ListedSoFar(ps, m, backward, j, emitted, rest, result) && j < |ps| && |rest| > 0
    ensures !Covered(ps, m, j)
  {
    CoveredIsEmptied(ps, m, j);
  }

  /** Emitting the copies of ps[j] moves the listing loop on by one prime. */
  lemma ListingStep<V>(ps: seq<nat>, m: multiset<nat>, backward: map<nat, V>, j: nat,
                       emitted: seq<nat>, rest: multiset<nat>, listed: seq<V>,
                       left: multiset<nat>, copies: nat, result: seq<V>)
    requires ListedSoFar(ps, m, backward, j, emitted, rest, listed) && j < |ps|
    requires rest == left + Copies(ps[j], copies) && ps[j] !in left && AllPrime(left)
    requires ps[j] in backward && Emitted(listed, backward[ps[j]], copies, result)
    ensures ListedSoFar(ps, m, backward, j + 1, emitted + Repeat(ps[j], copies), left, result)
  {
    OrderStep(ps, m, j, emitted, rest, left, copies);
    LookupStep(emitted, backward, ps[j], copies, listed, result);
  }

  /** Once the listing loop stops, everything has been emitted, in order, and no later
      prime was needed. */
  lemma ListingDone(ps: seq<nat>, m: multiset<nat>, j: nat, emitted: seq<nat>)
    requires StrictlyAscending(ps) && j <= |ps|
    requires emitted == Order(ps[..j], m)
    requires j < |ps| ==> m - multiset(emitted) == multiset{}
    ensures emitted == Order(ps, m)
    ensures forall k :: j <= k < |ps| ==> Covered(ps, m, k)
    ensures (forall p :: p in m ==> p in ps) ==> |emitted| == |m|
  {
    if j < |ps| {
      CoveredIsEmptied(ps, m, j);
      StoppedEarly(ps, m, j);
    } else {
      assert ps[..j] == ps;
    }
    if forall p :: p in m ==> p in ps {
      OrderOfListed(ps, m);
    }
  }

  /** When the first j primes already cover m, the later primes add nothing to the
      order. */
  lemma StoppedEarly(ps: seq<nat>, m: multiset<nat>, j: nat)
    requires StrictlyAscending(ps) && j < |ps| && Covered(ps, m, j)
    ensures Order(ps[..j], m) == Order(ps, m)
    ensures forall k :: j <= k < |ps| ==> Covered(ps, m, k)
  {
    OrderPrefix(ps, m, j);
    CoveredGrows(ps, m, j);
  }

  /** When ps lists every element of m, Order(ps, m) is a permutation of m. */
  lemma OrderOfListed(ps: seq<nat>, m: multiset<nat>)
    requires StrictlyAscending(ps) && forall p :: p in m ==> p in ps
    ensures multiset(Order(ps, m)) == m && |Order(ps, m)| == |m|
  {
    OrderCount(ps, m);
    assert forall x :: multiset(Order(ps, m))[x] == m[x];
  }

  /** The inner loop of AsVector: divides every copy of prime out of hashCopy, emitting
      value and counting down once per copy. */
  method EmitCopies<V>(prime: nat, value: V, hashCopy: nat, counter: nat, result: seq<V>, ghost rest: multiset<nat>)
    returns (hashLeft: nat, counterLeft: nat, emitted: seq<V>, ghost left: multiset<nat>, ghost copies: nat)
    requires IsPrime(prime) && AllPrime(rest) && hashCopy == Product(rest) && counter == |rest|
    ensures rest == left + Copies(prime, copies) && prime !in left
    ensures AllPrime(left) && hashLeft == Product(left) && counterLeft == |left|
    ensures Emitted(result, value, copies, emitted)
  {
    hashLeft, counterLeft, emitted := hashCopy, counter, result;
    left, copies := rest, 0;
    while ContainsHash(hashLeft, prime)
      invariant Split(rest, left, prime, copies)
      invariant hashLeft == Product(left) && counterLeft == |left|
      invariant Emitted(result, value, copies, emitted)
      decreases |left|
    {
      hashLeft, left := DivideCopy(prime, hashLeft, rest, left, copies);
      counterLeft := counterLeft - 1;
      emitted, copies := EmitOne(result, value, copies, emitted);
    }
    CopiesExhausted(rest, left, prime, copies);
  }

  /** emitted is result followed by copies times value. */
  ghost predicate Emitted<V>(result: seq<V>, value: V, copies: nat, emitted: seq<V>)
  {
    |emitted| == |result| + copies && emitted[..|result|] == result
    && forall i :: |result| <= i < |emitted| ==> emitted[i] == value
  }

  /** push_back(value): one more copy of value after result. */
  method EmitOne<V>(result: seq<V>, value: V, ghost copies: nat, emitted: seq<V>) returns (longer: seq<V>, ghost more: nat)
    requires Emitted(result, value, copies, emitted)
    ensures Emitted(result, value, more, longer) && more == copies + 1
  {
    longer, more := emitted + [value], copies + 1;
    assert longer[..|result|] == emitted[..|result|];
  }

  /** hash /= prime in the loops of count and AsVector: one more copy of prime leaves
      what is left of whole. */
  method DivideCopy(prime: nat, hash: nat, ghost whole: multiset<nat>, ghost left: multiset<nat>, ghost copies: nat)
    returns (hashLeft: nat, ghost rest: multiset<nat>)
    requires IsPrime(prime) && AllPrime(whole) && Split(whole, left, prime, copies)
    requires hash == Product(left) && ContainsHash(hash, prime)
    ensures Split(whole, rest, prime, copies + 1)
    ensures hashLeft == Product(rest) && |rest| + 1 == |left|
  {
    DivideOut(whole, left, prime, copies);
    hashLeft := hash / prime;
    rest := left - multiset{prime};
  }

  /** After the first j primes of ps, what is left of m is empty exactly when they cover
      m. */
  lemma CoveredIsEmptied(ps: seq<nat>, m: multiset<nat>, j: nat)
    requires StrictlyAscending(ps) && j <= |ps|
    ensures var left := m - multiset(Order(ps[..j], m));
      (left == multiset{} <==> Covered(ps, m, j)) && multiset(Order(ps[..j], m)) <= m
  {
    assert StrictlyAscending(ps[..j]);
    OrderCount(ps[..j], m);
    var left := m - multiset(Order(ps[..j], m));
    if !Covered(ps, m, j) {
      var x :| x in m && x !in ps[..j];
      assert x in left;
    } else {
      assert forall x :: left[x] == 0;
    }
  }

  /** Once the first j primes cover m, so do the first k for every k >= j. */
  lemma CoveredGrows(ps: seq<nat>, m: multiset<nat>, j: nat)
    requires j <= |ps| && Covered(ps, m, j)
    ensures forall k :: j <= k <= |ps| ==> Covered(ps, m, k)
  {
    forall k, x | j <= k <= |ps| && x in m
      ensures x in ps[..k]
    {
      assert x in ps[..j];
    }
  }

  /** Appending the copies of one prime appends its value as often. */
  lemma LookupStep<V>(emitted: seq<nat>, backward: map<nat, V>, p: nat, copies: nat, listed: seq<V>, result: seq<V>)
    requires (forall i :: 0 <= i < |emitted| ==> emitted[i] in backward) && listed == Lookup(emitted, backward)
    requires p in backward && Emitted(listed, backward[p], copies, result)
    ensures forall i :: 0 <= i < |emitted + Repeat(p, copies)| ==> (emitted + Repeat(p, copies))[i] in backward
    ensures result == Lookup(emitted + Repeat(p, copies), backward)
  {
    var longer := emitted + Repeat(p, copies);
    forall i | 0 <= i < |longer|
      ensures longer[i] in backward && result[i] == backward[longer[i]]
    {
      if i < |emitted| {
        assert result[i] == result[..|listed|][i];
      }
    }
  }

  /** The number of copies divided out is the multiplicity of the j-th prime. */
  lemma CopiesCounted(ps: seq<nat>, m: multiset<nat>, j: nat, emitted: seq<nat>, rest: multiset<nat>,
                      left: multiset<nat>, copies: nat)
    requires StrictlyAscending(ps) && j < |ps|
    requires emitted == Order(ps[..j], m) && rest == m - multiset(emitted)
    requires rest == left + Copies(ps[j], copies) && ps[j] !in left
    ensures copies == m[ps[j]]
  {
    var p := ps[j];
    assert StrictlyAscending(ps[..j]);
    OrderCount(ps[..j], m);
    assert p !in ps[..j];
    assert multiset(emitted)[p] == 0;
    assert rest[p] == m[p];
    assert rest[p] == left[p] + Copies(p, copies)[p];
  }

  /** What is left once the copies are out is m minus everything emitted. */
  lemma LeftAfterCopies(m: multiset<nat>, emitted: seq<nat>, rest: multiset<nat>, left: multiset<nat>,
                        p: nat, copies: nat)
    requires multiset(emitted) <= m && rest == m - multiset(emitted) && rest == left + Copies(p, copies)
    ensures multiset(emitted + Repeat(p, copies)) <= m
    ensures left == m - multiset(emitted + Repeat(p, copies))
  {
    RepeatCount(p, copies);
    assert multiset(emitted + Repeat(p, copies)) == multiset(emitted) + Copies(p, copies);
    TakeBoth(m, multiset(emitted), Copies(p, copies), left);
  }

  /** Taking before and then these out of m is taking their sum out. */
  lemma TakeBoth(m: multiset<nat>, before: multiset<nat>, these: multiset<nat>, left: multiset<nat>)
    requires before <= m && m - before == left + these
    ensures before + these <= m && m - (before + these) == left
  {
    forall x
      ensures (before + these)[x] <= m[x] && (m - (before + these))[x] == left[x]
    {
      assert (m - before)[x] == m[x] - before[x];
    }
  }

  /** Emitting every copy of the j-th prime extends the order over the first j primes to
      the order over the first j + 1, and what is left of m shrinks accordingly. */
  lemma OrderStep(ps: seq<nat>, m: multiset<nat>, j: nat, emitted: seq<nat>, rest: multiset<nat>,
                  left: multiset<nat>, copies: nat)
    requires StrictlyAscending(ps) && j < |ps|
    requires emitted == Order(ps[..j], m) && multiset(emitted) <= m && rest == m - multiset(emitted)
    requires rest == left + Copies(ps[j], copies) && ps[j] !in left
    ensures emitted + Repeat(ps[j], copies) == Order(ps[..j + 1], m)
    ensures multiset(emitted + Repeat(ps[j], copies)) <= m
    ensures left == m - multiset(emitted + Repeat(ps[j], copies))
  {
    CopiesCounted(ps, m, j, emitted, rest, left, copies);
    LeftAfterCopies(m, emitted, rest, left, ps[j], copies);
    OrderExtend(ps, m, j);
  }

  /** The order over the first j + 1 primes is the order over the first j followed by
      every copy of the j-th. */
  lemma OrderExtend(ps: seq<nat>, m: multiset<nat>, j: nat)
    requires j < |ps|
    ensures Order(ps[..j + 1], m) == Order(ps[..j], m) + Repeat(ps[j], m[ps[j]])
  {
    assert ps[..j + 1][..j] == ps[..j];
  }

  /** Non-decreasing. */
  ghost predicate Sorted(s: seq<nat>)
  {
    forall i, j :: 0 <= i <= j < |s| ==> s[i] <= s[j]
  }

  /** ps is a strictly ascending list of primes and covers every element of m: then
      Order(ps, m) lists m in ascending order. */
  ghost predicate Listing(ps: seq<nat>, m: multiset<nat>)
  {
    && StrictlyAscending(ps)
    && (forall i :: 0 <= i < |ps| ==> IsPrime(ps[i]))
    && (forall p :: p in m ==> p in ps)
  }

  /** e is a non-decreasing sequence of primes, each of them one of ps. */
  ghost predicate Arranged(ps: seq<nat>, e: seq<nat>)
  {
    && StrictlyAscending(ps)
    && (forall i :: 0 <= i < |ps| ==> IsPrime(ps[i]))
    && Sorted(e)
    && (forall k :: 0 <= k < |e| ==> e[k] in ps)
    && AllPrime(multiset(e))
  }

  /** Two non-decreasing sequences with the same elements are equal: a multiset has one
      ascending arrangement. */
  lemma {:induction false} SortedUnique(a: seq<nat>, b: seq<nat>)
    requires Sorted(a) && Sorted(b) && multiset(a) == multiset(b)
    ensures a == b
    decreases |a|
  {
    SameSize(a, b);
    if |a| > 0 {
      var n := |a| - 1;
      LastIsMax(a, b, n);
      LastIsMax(b, a, n);
      DropLast(a);
      DropLast(b);
      SortedUnique(a[..n], b[..n]);
      SameLast(a, b);
    }
  }

  lemma SameSize(a: seq<nat>, b: seq<nat>)
    requires multiset(a) == multiset(b)
    ensures |a| == |b|
  {
    assert |multiset(a)| == |a| && |multiset(b)| == |b|;
  }

  /** The last element of a non-decreasing sequence is its largest, and so no smaller
      than any element of a sequence with the same elements. */
  lemma LastIsMax(a: seq<nat>, b: seq<nat>, i: nat)
    requires Sorted(a) && |a| > 0 && multiset(a) == multiset(b) && i < |b|
    ensures b[i] <= a[|a| - 1]
  {
    assert b[i] in multiset(b);
    var k :| 0 <= k < |a| && a[k] == b[i];
  }

  /** Dropping the last element keeps a sequence non-decreasing and takes one copy of
      that element out of its multiset. */
  lemma DropLast(a: seq<nat>)
    requires Sorted(a) && |a| > 0
    ensures Sorted(a[..|a| - 1])
    ensures multiset(a[..|a| - 1]) == multiset(a) - multiset{a[|a| - 1]}
  {
    assert a == a[..|a| - 1] + [a[|a| - 1]];
  }

  lemma SameLast(a: seq<nat>, b: seq<nat>)
    requires |a| == |b| > 0 && a[..|a| - 1] == b[..|b| - 1] && a[|a| - 1] == b[|b| - 1]
    ensures a == b
  {
    assert a == a[..|a| - 1] + [a[|a| - 1]];
    assert b == b[..|b| - 1] + [b[|b| - 1]];
  }

  /** An ascending arrangement of m over the primes of ps is the order Order(ps, m) in
      which AsVector lists the bag. */
  lemma ArrangementIsOrder(ps: seq<nat>, e: seq<nat>, m: multiset<nat>)
    requires Listing(ps, m) && Arranged(ps, e) && multiset(e) == m
    ensures e == Order(ps, m)
  {
    OrderArranged(ps, m);
    SortedUnique(e, Order(ps, m));
  }

  /** The sieve's list is a listing for any multiset of its members. */
  lemma SieveListing(n: nat, m: multiset<nat>)
    requires forall p :: p in m ==> p in PrimesUpTo(n)
    ensures Listing(PrimesUpTo(n), m)
  {
    PrimesUpToMembers(n);
    PrimesUpToAscending(n);
    forall i | 0 <= i < |PrimesUpTo(n)|
      ensures IsPrime(PrimesUpTo(n)[i])
    {
      assert PrimesUpTo(n)[i] in PrimesUpTo(n);
    }
  }

  /** Over the sieve's list, the listing of a bag whose primes are all on it is an
      ascending arrangement of the bag. */
  lemma BagArrangement(n: nat, ps: seq<nat>, m: multiset<nat>)
    requires ps == PrimesUpTo(n) && forall p :: p in m ==> p in ps
    ensures Arranged(ps, Order(ps, m)) && multiset(Order(ps, m)) == m
  {
    SieveListing(n, m);
    OrderArranged(ps, m);
  }

  /** Order(ps, m) is an ascending arrangement of m over the primes of ps. */
  lemma OrderArranged(ps: seq<nat>, m: multiset<nat>)
    requires Listing(ps, m)
    ensures multiset(Order(ps, m)) == m && |Order(ps, m)| == |m| && Arranged(ps, Order(ps, m))
  {
    OrderOfListed(ps, m);
    OrderSorted(ps, m);
    forall x | x in m
      ensures IsPrime(x)
    {
      var i :| 0 <= i < |ps| && ps[i] == x;
    }
  }

  /** The elements from position t on are primes. */
  lemma SuffixPrime(e: seq<nat>, t: nat)
    requires AllPrime(multiset(e)) && t <= |e|
    ensures AllPrime(multiset(e[t..])) && multiset(e[t..]) <= multiset(e)
  {
    assert e == e[..t] + e[t..];
  }

  /** The hash of the elements of e from t on: their product, built up from the back. */
  ghost function SuffixHash(e: seq<nat>, t: nat): (h: nat)
    decreases |e| - t
  {
    if t >= |e| then 1 else e[t] * SuffixHash(e, t + 1)
  }

  /** SuffixHash is the product of the multiset of the elements from t on. */
  lemma {:induction false} SuffixIsProduct(e: seq<nat>, t: nat)
    requires t <= |e|
    ensures SuffixHash(e, t) == Product(multiset(e[t..]))
    decreases |e| - t
  {
    if t < |e| {
      SuffixIsProduct(e, t + 1);
      assert e[t..] == [e[t]] + e[t + 1..];
      assert multiset(e[t..]) == multiset(e[t + 1..]) + multiset{e[t]};
      ProductAdd(multiset(e[t + 1..]), e[t]);
    } else {
      assert e[t..] == [];
    }
  }

  /** One probe of the upward seek: on an ascending arrangement e of primes, a prime
      ps[i] at most e[t] divides the product of e[t..] only when it is e[t]; otherwise
      the next prime of ps is still at most e[t]. */
  lemma NextFactorProbe(ps: seq<nat>, e: seq<nat>, t: nat, i: nat)
    requires Arranged(ps, e) && t < |e| && i < |ps| && ps[i] <= e[t]
    ensures IsPrime(ps[i])
    ensures ContainsHash(Product(multiset(e[t..])), ps[i]) <==> ps[i] == e[t]
    ensures ps[i] != e[t] ==> i + 1 < |ps| && ps[i + 1] <= e[t]
  {
    SuffixPrime(e, t);
    PrimeDividesProduct(multiset(e[t..]), ps[i]);
    SuffixMember(ps, e, t, i);
    if ps[i] != e[t] {
      NextIndex(ps, e, t, i);
    }
  }

  /** A prime at most e[t] occurs among the elements from t on only as e[t] itself. */
  lemma SuffixMember(ps: seq<nat>, e: seq<nat>, t: nat, i: nat)
    requires Arranged(ps, e) && t < |e| && i < |ps| && ps[i] <= e[t]
    ensures ps[i] in multiset(e[t..]) <==> ps[i] == e[t]
  {
    if ps[i] in multiset(e[t..]) {
      var k :| t <= k < |e| && e[k] == ps[i];
    }
    assert e[t] == e[t..][0];
  }

  /** A prime of ps below e[t] is followed in ps by one that is still at most e[t]. */
  lemma NextIndex(ps: seq<nat>, e: seq<nat>, t: nat, i: nat)
    requires Arranged(ps, e) && t < |e| && i < |ps| && ps[i] < e[t]
    ensures i + 1 < |ps| && ps[i + 1] <= e[t]
  {
    assert e[t] in ps;
    var j :| 0 <= j < |ps| && ps[j] == e[t];
    assert i < j;
  }

  /** Adding one q to back keeps it inside front + back exactly when q is in front. */
  lemma AddOneContained(front: multiset<nat>, back: multiset<nat>, q: nat)
    ensures back + multiset{q} <= front + back <==> q in front
  {
    if q !in front {
      assert (back + multiset{q})[q] > (front + back)[q];
    }
  }

  /** Putting prime q back next to the elements after t divides the whole product exactly
      when q is among the elements up to t. */
  lemma ExtendDivides(e: seq<nat>, t: nat, q: nat)
    requires AllPrime(multiset(e)) && IsPrime(q) && t < |e|
    ensures Product(multiset(e[t + 1..])) * q >= 1
    ensures ContainsHash(Product(multiset(e)), Product(multiset(e[t + 1..])) * q) <==> q in e[..t + 1]
  {
    var front, back := multiset(e[..t + 1]), multiset(e[t + 1..]);
    assert e == e[..t + 1] + e[t + 1..];
    assert multiset(e) == front + back;
    SuffixPrime(e, t + 1);
    ProductTimes(back, q);
    assert AllPrime(back + multiset{q});
    ContainsHashOfProducts(multiset(e), back + multiset{q});
    AddOneContained(front, back, q);
  }

  /** One probe of the downward seek: with the elements after t already multiplied back
      into copyHash, a prime ps[i] at least e[t] completes a divisor of hash, the whole
      product, only when it is e[t]; otherwise the previous prime of ps is still at least
      e[t]. */
  lemma PreviousFactorProbe(ps: seq<nat>, e: seq<nat>, t: nat, i: nat, copyHash: nat, hash: nat)
    requires Arranged(ps, e) && t < |e| && i < |ps| && e[t] <= ps[i]
    requires copyHash == Product(multiset(e[t + 1..])) && hash == Product(multiset(e))
    ensures copyHash * ps[i] >= 1
    ensures ContainsHash(hash, copyHash * ps[i]) <==> ps[i] == e[t]
    ensures ps[i] != e[t] ==> i >= 1 && e[t] <= ps[i - 1]
  {
    ExtendDivides(e, t, ps[i]);
    PrefixMember(ps, e, t, i);
    if ps[i] != e[t] {
      PreviousIndex(ps, e, t, i);
    }
  }

  /** A prime at least e[t] occurs among the elements up to t only as e[t] itself. */
  lemma PrefixMember(ps: seq<nat>, e: seq<nat>, t: nat, i: nat)
    requires Arranged(ps, e) && t < |e| && i < |ps| && e[t] <= ps[i]
    ensures ps[i] in e[..t + 1] <==> ps[i] == e[t]
  {
    if ps[i] in e[..t + 1] {
      var k :| 0 <= k < t + 1 && e[..t + 1][k] == ps[i];
      assert e[k] == ps[i];
    }
    assert e[t] == e[..t + 1][t];
  }

  /** A prime of ps above e[t] is preceded in ps by one that is still at least e[t]. */
  lemma PreviousIndex(ps: seq<nat>, e: seq<nat>, t: nat, i: nat)
    requires Arranged(ps, e) && t < |e| && i < |ps| && e[t] < ps[i]
    ensures i >= 1 && e[t] <= ps[i - 1]
  {
    assert e[t] in ps;
    var j :| 0 <= j < |ps| && ps[j] == e[t];
    assert j < i;
  }

  /** getNextPrimeFactor's loop: from index start up to the first prime of ps dividing
      copyHash, which is e[t] when copyHash is the product of e[t..]. */
  method SeekUp(ps: seq<nat>, ghost e: seq<nat>, ghost t: nat, start: nat, copyHash: nat) returns (index: nat)
    requires Arranged(ps, e) && t < |e| && start < |ps| && ps[start] <= e[t]
    requires copyHash == SuffixHash(e, t)
    ensures start <= index < |ps| && ps[index] == e[t]
  {
    SuffixIsProduct(e, t);
    index := start;
    NextFactorProbe(ps, e, t, index);
    while !ContainsHash(copyHash, ps[index])
      invariant start <= index < |ps| && ps[index] <= e[t]
      invariant IsPrime(ps[index]) && (ContainsHash(copyHash, ps[index]) <==> ps[index] == e[t])
      decreases |ps| - index
    {
      index := index + 1;
      NextFactorProbe(ps, e, t, index);
    }
  }

  /** getPreviousPrimeFactor's loop: from index start down to the last prime of ps that,
      put next to copyHash, divides hash, which is e[t] when copyHash is the product of
      e[t + 1..] and hash the product of e. */
  method SeekDown(ps: seq<nat>, ghost e: seq<nat>, ghost t: nat, start: nat, copyHash: nat, hash: nat)
    returns (index: nat)
    requires Arranged(ps, e) && t < |e| && start < |ps| && e[t] <= ps[start]
    requires copyHash == SuffixHash(e, t + 1) && hash == Product(multiset(e))
    ensures index <= start && ps[index] == e[t]
  {
    SuffixIsProduct(e, t + 1);
    index := start;
    PreviousFactorProbe(ps, e, t, index, copyHash, hash);
    while !ContainsHash(hash, copyHash * ps[index])
      invariant index <= start && e[t] <= ps[index]
      invariant copyHash * ps[index] >= 1 && (ContainsHash(hash, copyHash * ps[index]) <==> ps[index] == e[t])
      invariant ps[index] != e[t] ==> index >= 1 && e[t] <= ps[index - 1]
      decreases index
    {
      index := index - 1;
      PreviousFactorProbe(ps, e, t, index, copyHash, hash);
    }
  }

  /** An element of a multiset of primes is at least 2. */
  lemma PrimeMember(m: multiset<nat>, x: nat)
    requires AllPrime(m) && x in m
    ensures x >= 2
  {
  }

  /** Dividing q * p by p gives back q. */
  lemma QuotientOfProduct(q: nat, p: nat)
    requires p > 0
    ensures (q * p) / p == q
  {
    MulMod(p, q);
    assert q * p == p * q;
  }

  /** copyHash /= prime on the working copy: taking element t off the front of the
      elements from t on. */
  method TakeOffFront(copyHash: nat, prime: nat, ghost e: seq<nat>, ghost t: nat) returns (quotient: nat)
    requires AllPrime(multiset(e)) && t < |e| && prime == e[t]
    requires copyHash == SuffixHash(e, t)
    ensures quotient == SuffixHash(e, t + 1)
  {
    assert e[t] in multiset(e);
    PrimeMember(multiset(e), e[t]);
    QuotientOfProduct(SuffixHash(e, t + 1), prime);
    quotient := copyHash / prime;
  }

  /** copyHash *= prime on the working copy: putting element t back in front of the
      elements after it. */
  method MultiplyBack(copyHash: nat, prime: nat, ghost e: seq<nat>, ghost t: nat) returns (product: nat)
    requires t < |e| && prime == e[t]
    requires copyHash == SuffixHash(e, t + 1)
    ensures product == SuffixHash(e, t)
  {
    product := copyHash * prime;
  }

  /** An arranged sequence is non-decreasing at t. */
  lemma ArrangedStep(ps: seq<nat>, e: seq<nat>, t: nat)
    requires Arranged(ps, e) && t + 1 < |e|
    ensures e[t] <= e[t + 1]
  {
  }

  /** The iterator's working state: where the current element's prime stands in the
      sieve's list, the working copy of the bag (its hash and length) and whether the
      iterator is past the last element. */
  datatype Cursor = Cursor(primeIndex: int, copyHash: nat, copyLength: nat, isEnd: bool)

  /** Where an iterator over the arrangement e stands: before the end the current element
      e[pos] is ps[primeIndex] and the working copy holds the elements after it; at the end
      the copy is empty and primeIndex is at or above the last element's prime (-1 when
      the list is empty). */
  ghost predicate Positioned(ps: seq<nat>, e: seq<nat>, pos: nat, c: Cursor)
  {
    && pos <= |e|
    && (c.isEnd <==> pos == |e|)
    && (!c.isEnd ==>
          && 0 <= c.primeIndex < |ps|
          && ps[c.primeIndex] == e[pos]
          && c.copyHash == SuffixHash(e, pos + 1)
          && c.copyLength == |e| - pos - 1)
    && (c.isEnd ==>
          && c.copyHash == 1 && c.copyLength == 0
          && -1 <= c.primeIndex < |ps|
          && (pos > 0 ==> 0 <= c.primeIndex && e[pos - 1] <= ps[c.primeIndex]))
  }

  /** The step of operator++ when the copy is not empty: the copy holds the elements from
      t on; seek up to the prime of e[t], divide it out and shorten the copy. */
  method StepForward(ps: seq<nat>, ghost e: seq<nat>, ghost t: nat, primeIndex: nat, copyHash: nat, copyLength: nat)
    returns (primeIndex': nat, copyHash': nat, copyLength': nat)
    requires Arranged(ps, e) && t < |e| && primeIndex < |ps| && ps[primeIndex] <= e[t]
    requires copyHash == SuffixHash(e, t) && copyLength == |e| - t
    ensures primeIndex' < |ps| && ps[primeIndex'] == e[t]
    ensures copyHash' == SuffixHash(e, t + 1) && copyLength' == |e| - t - 1
  {
    primeIndex' := SeekUp(ps, e, t, primeIndex, copyHash);
    var prime := ps[primeIndex'];
    copyHash' := TakeOffFront(copyHash, prime, e, t);
    copyLength' := copyLength - 1;
  }

  /** operator++: to the next element, or to the end after the last one; at the end
      nothing changes. */
  method Advance(ps: seq<nat>, ghost e: seq<nat>, ghost pos: nat, c: Cursor) returns (ghost pos': nat, c': Cursor)
    requires Arranged(ps, e) && Positioned(ps, e, pos, c)
    ensures Positioned(ps, e, pos', c')
    ensures pos' == if c.isEnd then pos else pos + 1
  {
    pos', c' := pos, c;
    if !c.isEnd {
      if c.copyLength > 0 {
        ArrangedStep(ps, e, pos);
        var i, h, l := StepForward(ps, e, pos + 1, c.primeIndex, c.copyHash, c.copyLength);
        MovedOn(ps, e, pos + 1, i, h, l);
        pos', c' := pos + 1, Cursor(i, h, l, false);
      } else {
        ReachEnd(ps, e, pos, c);
        pos', c' := pos + 1, c.(isEnd := true);
      }
    }
  }

  /** After the step of operator++ the iterator stands at element t. */
  lemma MovedOn(ps: seq<nat>, e: seq<nat>, t: nat, i: nat, h: nat, l: nat)
    requires t < |e| && i < |ps| && ps[i] == e[t]
    requires h == SuffixHash(e, t + 1) && l == |e| - t - 1
    ensures Positioned(ps, e, t, Cursor(i, h, l, false))
  {
  }

  /** operator++ on the last element: the copy is empty, so the iterator moves to the end
      and keeps the last element's prime index. */
  lemma ReachEnd(ps: seq<nat>, e: seq<nat>, pos: nat, c: Cursor)
    requires Positioned(ps, e, pos, c) && !c.isEnd && c.copyLength == 0
    ensures Positioned(ps, e, pos + 1, c.(isEnd := true))
  {
  }

  /** The constructor's start: at the end when asked or when the bag is empty, with
      primeIndex at the last listed prime and an empty copy; otherwise the copy is the
      whole bag and operator++ moves to the first element. */
  method Start(ps: seq<nat>, ghost e: seq<nat>, hash: nat, length: nat, atEnd: bool) returns (ghost pos: nat, c: Cursor)
    requires Arranged(ps, e) && hash == Product(multiset(e)) && length == |e|
    ensures Positioned(ps, e, pos, c)
    ensures c.isEnd <==> atEnd || length == 0
    ensures pos == if c.isEnd then length else 0
  {
    if length == 0 || atEnd {
      StartAtEnd(ps, e);
      pos, c := |e|, Cursor(|ps| - 1, 1, 0, true);
    } else {
      StartAtFirst(ps, e, hash);
      var i, h, l := StepForward(ps, e, 0, 0, hash, length);
      pos, c := 0, Cursor(i, h, l, false);
    }
  }

  /** The end position, with primeIndex at the last prime of ps. */
  lemma StartAtEnd(ps: seq<nat>, e: seq<nat>)
    requires Arranged(ps, e)
    ensures Positioned(ps, e, |e|, Cursor(|ps| - 1, 1, 0, true))
  {
    if |e| > 0 {
      assert e[|e| - 1] in ps;
      var i :| 0 <= i < |ps| && ps[i] == e[|e| - 1];
      assert ps[i] <= ps[|ps| - 1];
    }
  }

  /** The whole bag is the copy from element 0 on, and the seek can start at the first
      prime of ps. */
  lemma StartAtFirst(ps: seq<nat>, e: seq<nat>, hash: nat)
    requires Arranged(ps, e) && hash == Product(multiset(e)) && |e| > 0
    ensures 0 < |ps| && ps[0] <= e[0] && hash == SuffixHash(e, 0)
  {
    SuffixIsProduct(e, 0);
    assert e[0..] == e;
    assert e[0] in ps;
  }

  /** The guarded body of operator--: from the end re-enter at the last element,
      otherwise multiply the current prime back into the copy; then seek down to the prime
      of the previous element. */
  method StepBackward(ps: seq<nat>, ghost e: seq<nat>, hash: nat, ghost pos: nat, c: Cursor) returns (ghost pos': nat, c': Cursor)
    requires Arranged(ps, e) && hash == Product(multiset(e))
    requires Positioned(ps, e, pos, c) && pos > 0
    ensures Positioned(ps, e, pos', c')
    ensures pos' == pos - 1
  {
    var prime := ps[c.primeIndex];
    var h, l := c.copyHash, c.copyLength;
    pos' := pos - 1;
    if !c.isEnd {
      h := MultiplyBack(h, prime, e, pos);
      l := l + 1;
      ArrangedStep(ps, e, pos');
    }
    var i := SeekDown(ps, e, pos', c.primeIndex, h, hash);
    c' := Cursor(i, h, l, false);
  }

  /** A position in a bag: the element at the position is the prime ps[primeIndex], and
      the working copy holds the elements after it. */
  class PrimeBagIterator<V(==)> {
    /** The bag iterated over. */
    const bag: PrimeBag<V>
    /** The bag's table. */
    const table: PrimeTable<V>
    /** The prime index, the working copy and the end flag. */
    var cursor: Cursor
    /** The sieve's list of primes when the iterator was made. */
    ghost const primes: seq<nat>
    /** The bag's elements when the iterator was made. */
    ghost const factors: multiset<nat>
    /** The bag's elements in ascending order of their primes. */
    ghost const elems: seq<nat>
    /** The position in elems; |elems| at the end. */
    ghost var pos: nat

    /** The bag and the sieve's list are as they were when the iterator was made. */
    ghost predicate Fixed()
      reads bag, table.sieve
    {
      && table == bag.table
      && bag.factors == factors && bag.hash == Product(factors) && bag.length == |factors|
      && table.sieve.primes == primes
    }

    /** What was settled when the iterator was made: elems is an ascending arrangement
        of the bag's primes, each of them listed in primes. */
    ghost predicate Shape()
    {
      Arranged(primes, elems) && multiset(elems) == factors
    }

    ghost predicate Valid()
      reads this, bag, table.sieve
    {
      Fixed() && Shape() && Positioned(primes, elems, pos, cursor)
    }

    /** An iterator on bag: at the first element, or at the end when isEnd is set or the
        bag is empty. Requires every prime of the bag to be in the sieve's list. */
    constructor (bag: PrimeBag<V>, isEnd: bool)
      requires bag.Valid() && bag.table.sieve.Valid()
      requires forall p :: p in bag.factors ==> p in bag.table.sieve.primes
      ensures Valid() && this.bag == bag && primes == bag.table.sieve.primes && factors == bag.factors
      ensures cursor.isEnd <==> isEnd || bag.length == 0
      ensures pos == if cursor.isEnd then bag.length else 0
    {
      // getPrimeNumbers hands out the sieve's list
      var ps := bag.table.sieve.primes;
      ghost var e := Order(ps, bag.factors);
      BagArrangement(bag.table.sieve.highestTestedNum, ps, bag.factors);
      ghost var p;
      var c;
      p, c := Start(ps, e, bag.hash, bag.length, isEnd);
      this.bag := bag;
      table := bag.table;
      primes := ps;
      factors := bag.factors;
      elems := e;
      pos, cursor := p, c;
    }

    /** The iterator visits the bag's elements in the order AsVector lists them. */
    lemma ElemsInOrder()
      requires Valid()
      ensures elems == Order(primes, factors)
    {
      ArrangementIsOrder(primes, elems, factors);
    }

    /** The value at the current position; fails at the end, or when the current prime
        belongs to no value any more. */
    function Current(): (r: Result<V>)
      reads this, bag, table, table.sieve
      requires Valid() && table.Valid()
      ensures r.Ok? <==> pos < |elems| && elems[pos] in table.reversePrimeMap
      ensures r.Ok? ==> r.value in table.primeMap && table.primeMap[r.value] == elems[pos]
    {
      if !cursor.isEnd then table.GetValue(table.GetPrimeNumbers()[cursor.primeIndex]) else OutOfRange
    }

    /** Whether two iterators stand at the same place: over the same table, both at the end
        or both not, and with equal working copies. On one bag this is equality of
        positions. */
    function Equals(other: PrimeBagIterator<V>): (r: bool)
      reads this, other, bag, table.sieve
      ensures Valid() && other.Valid() && other.bag == bag && other.elems == elems ==> (r <==> pos == other.pos)
    {
      if table != other.table then false
      else
        && cursor.isEnd == other.cursor.isEnd
        && cursor.copyLength == other.cursor.copyLength
        && cursor.copyHash == other.cursor.copyHash
    }

    /** Whether two iterators stand at different places. */
    function NotEquals(other: PrimeBagIterator<V>): (r: bool)
      reads this, other, bag, table.sieve
      ensures Valid() && other.Valid() && other.bag == bag && other.elems == elems ==> (r <==> pos != other.pos)
    {
      !Equals(other)
    }

    /** Whether this iterator's working copy is longer than other's. On one bag and away
        from the end this is the order of positions; the last element is not before the
        end, since both have an empty copy. */
    function Less(other: PrimeBagIterator<V>): (r: bool)
      reads this, other
      ensures Valid() && other.Valid() && other.bag == bag && other.elems == elems && !cursor.isEnd ==>
        (r <==> if other.cursor.isEnd then pos + 1 < |elems| else pos < other.pos)
    {
      other.cursor.copyLength < cursor.copyLength
    }

    /** Whether this iterator's working copy is shorter than other's. On one bag and away
        from the end this is the reverse order of positions; the end is not after the last
        element. */
    function Greater(other: PrimeBagIterator<V>): (r: bool)
      reads this, other
      ensures Valid() && other.Valid() && other.bag == bag && other.elems == elems && !other.cursor.isEnd ==>
        (r <==> if cursor.isEnd then other.pos + 1 < |elems| else other.pos < pos)
    {
      other.cursor.copyLength > cursor.copyLength
    }

    /** Greater or equal. */
    function AtLeast(other: PrimeBagIterator<V>): (r: bool)
      reads this, other, bag, table.sieve
      ensures Valid() && other.Valid() && other.bag == bag && other.elems == elems && !cursor.isEnd && !other.cursor.isEnd ==>
        (r <==> other.pos <= pos)
    {
      Greater(other) || Equals(other)
    }

    /** Less or equal. */
    function AtMost(other: PrimeBagIterator<V>): (r: bool)
      reads this, other, bag, table.sieve
      ensures Valid() && other.Valid() && other.bag == bag && other.elems == elems && !cursor.isEnd && !other.cursor.isEnd ==>
        (r <==> pos <= other.pos)
    {
      Less(other) || Equals(other)
    }

    /** Moves to the next element, or to the end after the last one; does nothing at the
        end. */
    method Increment()
      requires Valid()
      modifies this
      ensures Valid()
      ensures pos == if old(cursor.isEnd) then old(pos) else old(pos) + 1
    {
      var ps := table.sieve.primes;
      ghost var p;
      var c;
      p, c := Advance(ps, elems, pos, cursor);
      pos, cursor := p, c;
    }

    /** Moves back one element, as written: the guard compares the working copy's length
        with the bag's length less one, so it does nothing at the first element, and at the
        end of a one-element bag as well. */
    method Decrement()
      requires Valid() && bag.length >= 1
      modifies this
      ensures Valid()
      ensures pos == if 0 < old(pos) && (old(pos) < |elems| || |elems| >= 2) then old(pos) - 1 else old(pos)
    {
      if cursor.copyLength < bag.length - 1 {
        var ps := table.sieve.primes;
        ghost var p;
        var c;
        p, c := StepBackward(ps, elems, bag.hash, pos, cursor);
        pos, cursor := p, c;
      }
    }

    /** Moves back one element from any position but the first, including from the end of
        a one-element bag. */
    method DecrementFixed()
      requires Valid() && bag.length >= 1
      modifies this
      ensures Valid()
      ensures pos == if 0 < old(pos) then old(pos) - 1 else old(pos)
    {
      if cursor.isEnd || cursor.copyLength < bag.length - 1 {
        var ps := table.sieve.primes;
        ghost var p;
        var c;
        p, c := StepBackward(ps, elems, bag.hash, pos, cursor);
        pos, cursor := p, c;
      }
    }
  }
}
